/** Both placement reconcilers over whole runs: any sequence of their reconciles, with any of the patches failing. */
module PlacementRuns {
  import opened Labels
  import opened Entities
  import opened Index
  import opened FanOut
  import opened Finalizers
  import opened WorkloadReconciler
  import opened DeviceLabelsReconciler

  /** How the workload reconciler finds the holders, and whether the client overwrites what it patches. */
  datatype Config = Config(lookup: Lookup, writeBack: bool)

  /** A reconcile, with the requests that fail in it and the outcome it reports; or a user's deletion of a workload,
      which removes it at once if it has no finalizer. Specifications do not change during a run. */
  datatype Event =
    | WorkloadRun(workload: string, faults: set<Call>, ok: bool)
    | DeviceRun(device: string, faults: set<Call>, ok: bool)
    | DeletionRequested(workload: string)

  /** What the API server and the reconcilers keep of every store: objects are filed under their names, and no device
      lists a workload twice. */
  ghost predicate WellFormed(s: State) {
    && NamedByKey(s.devices)
    && (forall n :: n in s.devices ==> n != "" && DistinctNames(s.devices[n].workloads))
    && (forall n :: n in s.workloads ==> s.workloads[n].name == n)
  }

  ghost predicate Next(cfg: Config, s: State, e: Event, s': State)
    requires WellFormed(s)
  {
    match e
    case WorkloadRun(n, faults, ok) =>
      var r := Reconciled(cfg.lookup, s, n, faults);
      s' == r.state && ok == r.ok
    case DeviceRun(n, faults, ok) => Reconciles(cfg.writeBack, s, n, faults, s', ok)
    case DeletionRequested(n) =>
      && n in s.workloads
      && s' == s.(workloads := if s.workloads[n].finalizers == [] then s.workloads - {n}
                               else s.workloads[n := s.workloads[n].(deleting := true)])
  }

  /** Where the workload belongs. */
  predicate Target(s: State, n: string, dn: string)
    requires dn in s.devices
  {
    n in s.workloads && !s.workloads[n].deleting && Selects(s.workloads[n], s.devices[dn])
  }

  ghost predicate Agrees(s: State, n: string, dn: string)
    requires dn in s.devices
  {
    Lists(s.devices[dn], n) <==> Target(s, n, dn)
  }

  /** Entry and label are both where they belong. */
  ghost predicate Right(s: State, n: string, dn: string)
    requires dn in s.devices
  {
    Agrees(s, n, dn) && (Labelled(s.devices[dn], n) <==> Target(s, n, dn))
  }

  /** The workload's selector, if it exists, has no placement label as a key. */
  predicate PlainIn(s: State, n: string) {
    n in s.workloads ==> Plain(s.workloads[n])
  }

  /** The workload, if it is live, has its selector labels up to date, and the two reconcilers have the same verdict on
      it for this device. */
  ghost predicate Settled(s: State, n: string, dn: string)
    requires dn in s.devices
  {
    n in s.workloads && !s.workloads[n].deleting ==>
      InSync(s.workloads[n]) && (Finds(s.workloads[n], s.devices[dn]) <==> Selects(s.workloads[n], s.devices[dn]))
  }

  /** Every status entry of the workload has its label, or the workload selects the device. */
  ghost predicate Backed(s: State, n: string) {
    forall dn :: dn in s.devices && Lists(s.devices[dn], n) ==>
      Labelled(s.devices[dn], n) || (n in s.workloads && Selects(s.workloads[n], s.devices[dn]))
  }

  /** A backed workload that chooses devices in at most one way, and not by placement labels. */
  ghost predicate Inv(s: State, n: string) {
    WellFormed(s) && Backed(s, n) && PlainIn(s, n) && (n in s.workloads ==> OneTarget(s.workloads[n]))
  }

  // ---------- One workload reconcile ----------

  /** Entries of other workloads are as they were and in their order, and a new one is Deploying. */
  ghost predicate EntriesKept(n: string, d: Device, d': Device) {
    Reworked(d.workloads, d'.workloads) && forall p: Placement :: p.name != n ==> (p in d'.workloads <==> p in d.workloads)
  }

  /** `d'` is `d` but for the entry and the label of `n`, which can only have moved the stated way. */
  ghost predicate Moves(n: string, d: Device, d': Device, toward: bool) {
    && d'.name == d.name && d'.deleting == d.deleting
    && SameUserLabels(d.labels, d'.labels)
    && (DistinctNames(d.workloads) ==> DistinctNames(d'.workloads))
    && EntriesKept(n, d, d')
    && (forall m :: m != n ==> (Lists(d', m) <==> Lists(d, m)) && (Labelled(d', m) <==> Labelled(d, m)))
    && (if toward then (Lists(d, n) ==> Lists(d', n)) && (Labelled(d, n) ==> Labelled(d', n))
        else (Lists(d', n) ==> Lists(d, n) && (Labelled(d', n) <==> Labelled(d, n))) && (Labelled(d', n) ==> Labelled(d, n)))
  }

  lemma StaysPut(n: string, d: Device, toward: bool)
    ensures Moves(n, d, d, toward)
  {
    ReworkedSame(d.workloads);
  }

  lemma JobMoves(job: Job, d: Device, faults: set<Call>)
    ensures Moves(job.workload, d, AfterBoth(job, d, faults, d), job.Place?)
  {
    forall m { JobTouchesOneWorkload(job, d, faults, m); }
    JobOnItsWorkload(job, d, faults);
    JobKeepsOtherEntries(job, d, faults);
  }

  lemma PlaceAndEvictAt(s: State, n: string, matching: set<string>, holders: set<string>, faults: set<Call>, dn: string)
    requires NamedByKey(s.devices) && dn in s.devices
    ensures var r, d := PlaceAndEvict(s, n, matching, holders, faults), s.devices[dn];
            && r.state.devices.Keys == s.devices.Keys && r.state.workloads == s.workloads
            && (dn in matching ==> r.state.devices[dn] == AfterBoth(Place(n), d, faults, d))
            && (dn !in matching ==> r.state.devices[dn] == d || r.state.devices[dn] == AfterBoth(Evict(n, matching), d, faults, d))
            && (dn !in matching && dn !in holders ==> r.state.devices[dn] == d)
            && (r.ok && dn in matching ==> DeviceErrors(Place(n), d, faults) == [])
            && (r.ok && dn in holders - matching ==>
                  r.state.devices[dn] == AfterBoth(Evict(n, matching), d, faults, d) && DeviceErrors(Evict(n, matching), d, faults) == [])
  {
    PlacedElsewhere(n, matching, faults, s.devices);
    var placed := OnDevices(Place(n), matching, faults, s.devices);
    if dn in matching {
      JobOnItsWorkload(Evict(n, matching), placed[dn], faults);
    }
  }

  lemma FinalizeRemovalAt(s: State, w: Workload, names: set<string>, faults: set<Call>, dn: string)
    requires NamedByKey(s.devices) && dn in s.devices && w.name in s.workloads
    ensures var r, d := FinalizeRemoval(s, w, names, faults), s.devices[dn];
            && r.state.devices.Keys == s.devices.Keys
            && r.state.devices[dn] == (if dn in names then AfterBoth(Evict(w.name, {}), d, faults, d) else d)
            && (r.ok && dn in names ==> DeviceErrors(Evict(w.name, {}), d, faults) == [])
  {
  }

  lemma PlaceAndEvictMoves(s: State, n: string, matching: set<string>, holders: set<string>, faults: set<Call>, dn: string)
    requires NamedByKey(s.devices) && dn in s.devices
    ensures var s' := PlaceAndEvict(s, n, matching, holders, faults).state;
            && s'.devices.Keys == s.devices.Keys
            && Moves(n, s.devices[dn], s'.devices[dn], dn in matching)
  {
    PlaceAndEvictAt(s, n, matching, holders, faults, dn);
    StaysPut(n, s.devices[dn], dn in matching);
    JobMoves(Place(n), s.devices[dn], faults);
    JobMoves(Evict(n, matching), s.devices[dn], faults);
  }

  lemma RemovalMoves(s: State, w: Workload, names: set<string>, faults: set<Call>, dn: string)
    requires NamedByKey(s.devices) && dn in s.devices && w.name in s.workloads
    ensures var s' := FinalizeRemoval(s, w, names, faults).state;
      && s'.devices.Keys == s.devices.Keys
      && Moves(w.name, s.devices[dn], s'.devices[dn], false)
  {
    FinalizeRemovalAt(s, w, names, faults, dn);
    StaysPut(w.name, s.devices[dn], false);
    JobMoves(Evict(w.name, {}), s.devices[dn], faults);
  }

  lemma DevicesAfter(lookup: Lookup, s: State, n: string, faults: set<Call>)
    requires WellFormed(s)
    ensures var devices := Reconciled(lookup, s, n, faults).state.devices;
      || devices == s.devices
      || (n in s.workloads
          && var w, matching, holders := s.workloads[n], Matching(s, s.workloads[n]), Holders(lookup, s, n);
             devices == if w.deleting then FinalizeRemoval(s, w, matching + holders, faults).state.devices
                        else PlaceAndEvict(s, n, matching, holders, faults).state.devices)
  {
  }

  /** A reconcile of a workload moves each device, if at all, toward the target. */
  lemma WorkloadRunMoves(lookup: Lookup, s: State, n: string, faults: set<Call>, dn: string)
    requires WellFormed(s) && dn in s.devices
    ensures var s' := Reconciled(lookup, s, n, faults).state;
            && s'.devices.Keys == s.devices.Keys
            && Moves(n, s.devices[dn], s'.devices[dn], Target(s, n, dn))
  {
    var devices := Reconciled(lookup, s, n, faults).state.devices;
    DevicesAfter(lookup, s, n, faults);
    if devices == s.devices {
      StaysPut(n, s.devices[dn], Target(s, n, dn));
    } else {
      var w := s.workloads[n];
      var matching, holders := Matching(s, w), Holders(lookup, s, n);
      if w.deleting {
        RemovalMoves(s, w, matching + holders, faults, dn);
      } else {
        PlaceAndEvictMoves(s, n, matching, holders, faults, dn);
      }
    }
  }

  /** What a reconcile may do to the workload objects: only the reconciled one changes, in its labels and finalizers;
      or it goes with its last finalizer. */
  lemma WorkloadRunOnWorkloads(lookup: Lookup, s: State, n: string, faults: set<Call>, m: string)
    requires WellFormed(s)
    ensures var s' := Reconciled(lookup, s, n, faults).state;
            && (m !in s.workloads ==> m !in s'.workloads)
            && (m in s.workloads && m != n ==> m in s'.workloads && s'.workloads[m] == s.workloads[m])
            && (m in s.workloads && m in s'.workloads ==>
                  var w, w' := s.workloads[m], s'.workloads[m];
                  && w' == w.(labels := w'.labels, finalizers := w'.finalizers)
                  && (InSync(w) ==> w'.labels == w.labels)
                  && SameOwnLabels(w.labels, w'.labels))
            && (m in s.workloads && m !in s'.workloads ==> s.workloads[m].deleting)
  {
    if n in s.workloads {
      var w := s.workloads[n];
      MergePatchOfCurrent(w.labels, w.labels);
      MergePatchOfCurrent(w.labels, SelectorLabels(w));
      SelectorLabelsExactly(w);
    }
  }

  /** The reconcile gets as far as the devices. */
  ghost predicate Reaches(s: State, n: string) {
    && n in s.workloads && FINALIZER in s.workloads[n].finalizers
    && (s.workloads[n].deleting || InSync(s.workloads[n]))
  }

  /** A successful reconcile leaves the workload's entry and label exactly where they belong, except on a device
      that neither matches nor was found as a holder, which it does not touch. */
  lemma WorkloadRunSettles(lookup: Lookup, s: State, n: string, faults: set<Call>, dn: string)
    requires WellFormed(s) && dn in s.devices && Reaches(s, n)
    requires Reconciled(lookup, s, n, faults).ok
    ensures var d, d' := s.devices[dn], Reconciled(lookup, s, n, faults).state.devices[dn];
            if Selects(s.workloads[n], d) || dn in Holders(lookup, s, n)
            then (Lists(d', n) <==> Target(s, n, dn)) && (Labelled(d', n) <==> Target(s, n, dn))
            else d' == d
  {
    var w, d := s.workloads[n], s.devices[dn];
    var matching, holders := Matching(s, w), Holders(lookup, s, n);
    if w.deleting {
      JobOnItsWorkload(Evict(n, {}), d, faults);
    } else {
      PlaceAndEvictAt(s, n, matching, holders, faults, dn);
      JobOnItsWorkload(Place(n), d, faults);
      JobOnItsWorkload(Evict(n, matching), d, faults);
    }
  }

  // ---------- One device reconcile ----------

  ghost predicate ListsExactly(d: Device, names: set<string>) {
    forall n :: Lists(d, n) <==> n in names
  }

  lemma PatchedEffect(writeBack: bool, s: State, d: Device, wanted: set<string>, updated: Option<Device>, added: seq<string>,
                      faults: set<Call>, s': State, ok: bool)
    requires d.name in s.devices && s.devices[d.name] == d && DistinctNames(d.workloads)
    requires IsUpdate(wanted, d, updated, added) && Patched(writeBack, s, d, updated, faults, s', ok)
    ensures s'.workloads == s.workloads && s'.devices.Keys == s.devices.Keys
    ensures forall n :: n in s.devices && n != d.name ==> s'.devices[n] == s.devices[n]
    ensures var d' := s'.devices[d.name];
            && d'.name == d.name && d'.deleting == d.deleting
            && SameUserLabels(d.labels, d'.labels) && DistinctNames(d'.workloads)
            && (d' == d || ListsExactly(d', wanted)) && (ok ==> ListsExactly(d', wanted))
            && Reworked(d.workloads, d'.workloads)
  {
    UpdateIsExact(wanted, d, updated, added);
    ReworkedSame(d.workloads);
    if updated.Some? {
      UpdateOfLabels(wanted, d, updated, added);
      MergePatchOfCurrent(d.labels, LabelsToWrite(writeBack, d, updated.value));
    } else {
      forall n ensures Lists(d, n) <==> n in wanted {
        ListedName(d.workloads, n);
      }
    }
  }

  /** A device reconcile leaves the list as it was, or makes it exactly the matched workloads. */
  lemma DeviceRunEffect(writeBack: bool, s: State, dn: string, faults: set<Call>, s': State, ok: bool)
    requires WellFormed(s) && Reconciles(writeBack, s, dn, faults, s', ok)
    ensures s'.workloads == s.workloads && s'.devices.Keys == s.devices.Keys
    ensures forall n :: n in s.devices && n != dn ==> s'.devices[n] == s.devices[n]
    ensures dn in s.devices ==>
              var d, d' := s.devices[dn], s'.devices[dn];
              && d'.name == d.name && d'.deleting == d.deleting
              && SameUserLabels(d.labels, d'.labels) && DistinctNames(d'.workloads)
              && (d' == d || ListsExactly(d', Matched(s, d)))
              && (ok && !d.deleting ==> ListsExactly(d', Matched(s, d)))
              && Reworked(d.workloads, d'.workloads)
  {
    if dn in s.devices {
      ReworkedSame(s.devices[dn].workloads);
    }
    if ReadDevice !in faults && dn in s.devices && !s.devices[dn].deleting && !LookupFails(s, s.devices[dn], faults) {
      var d := s.devices[dn];
      var updated, added :| IsUpdate(Matched(s, d), d, updated, added) && Patched(writeBack, s, d, updated, faults, s', ok);
      PatchedEffect(writeBack, s, d, Matched(s, d), updated, added, faults, s', ok);
    }
  }

  /** What a device reconcile does to the placement labels, exactly: nothing if the client overwrites what it patches or
      the label patch fails; otherwise, after a success, those of dropped entries are gone and those of new ones there. */
  lemma DeviceRunOnLabels(writeBack: bool, s: State, dn: string, faults: set<Call>, s': State, ok: bool, n: string)
    requires WellFormed(s) && Reconciles(writeBack, s, dn, faults, s', ok) && dn in s.devices && !s.devices[dn].deleting
    ensures dn in s'.devices
    ensures PatchStatus(dn) in faults ==> s' == s
    ensures writeBack || PatchLabels(dn) in faults ==> s'.devices[dn].labels == s.devices[dn].labels
    ensures ok && !writeBack ==>
      var d, matched := s.devices[dn], n in Matched(s, s.devices[dn]);
      (Labelled(s'.devices[dn], n) <==> (matched && !Lists(d, n)) || (Labelled(d, n) && (matched || !Lists(d, n))))
  {
    if ReadDevice !in faults && !LookupFails(s, s.devices[dn], faults) {
      var d, wanted := s.devices[dn], Matched(s, s.devices[dn]);
      var updated, added :| IsUpdate(wanted, d, updated, added) && Patched(writeBack, s, d, updated, faults, s', ok);
      UpdateIsExact(wanted, d, updated, added);
      if updated.Some? {
        UpdateOfLabels(wanted, d, updated, added);
        MergePatchOfCurrent(d.labels, LabelsToWrite(writeBack, d, updated.value));
      } else {
        ListedName(d.workloads, n);
      }
    }
  }

  /** Where the list was right about a workload, its label stays as it was, whichever way the client patches. */
  lemma DeviceRunOnLabel(writeBack: bool, s: State, dn: string, faults: set<Call>, s': State, ok: bool, n: string)
    requires WellFormed(s) && Reconciles(writeBack, s, dn, faults, s', ok) && dn in s.devices && dn in s'.devices
    requires Lists(s.devices[dn], n) <==> n in Matched(s, s.devices[dn])
    ensures Labelled(s'.devices[dn], n) <==> Labelled(s.devices[dn], n)
  {
    if ReadDevice !in faults && !s.devices[dn].deleting && !LookupFails(s, s.devices[dn], faults) {
      var d, wanted := s.devices[dn], Matched(s, s.devices[dn]);
      var updated, added :| IsUpdate(wanted, d, updated, added) && Patched(writeBack, s, d, updated, faults, s', ok);
      if updated.Some? {
        UpdateOfLabels(wanted, d, updated, added);
        MergePatchOfCurrent(d.labels, LabelsToWrite(writeBack, d, updated.value));
      }
    }
  }

  // ---------- Every step ----------

  /** A step changes no device's name or user labels, lists no workload twice, and leaves the entries it keeps as they
      were and in their order, with new ones as Deploying after them. */
  lemma StepOnDevice(cfg: Config, s: State, e: Event, s': State, dn: string)
    requires WellFormed(s) && Next(cfg, s, e, s') && dn in s.devices
    ensures s'.devices.Keys == s.devices.Keys
    ensures s'.devices[dn].name == s.devices[dn].name && s'.devices[dn].deleting == s.devices[dn].deleting
    ensures SameUserLabels(s.devices[dn].labels, s'.devices[dn].labels) && DistinctNames(s'.devices[dn].workloads)
    ensures Reworked(s.devices[dn].workloads, s'.devices[dn].workloads)
  {
    ReworkedSame(s.devices[dn].workloads);
    match e {
      case WorkloadRun(m, faults, _) => WorkloadRunMoves(cfg.lookup, s, m, faults, dn);
      case DeviceRun(m, faults, ok) => DeviceRunEffect(cfg.writeBack, s, m, faults, s', ok);
      case DeletionRequested(m) =>
    }
  }

  lemma WorkloadRunKeys(lookup: Lookup, s: State, n: string, faults: set<Call>)
    requires WellFormed(s)
    ensures Reconciled(lookup, s, n, faults).state.devices.Keys == s.devices.Keys
  {
  }

  /** A step changes no specification, no label that is not a selector label, no selector labels that are up to date, and marks nothing for deletion unless a
      user asks for it. */
  lemma StepOnWorkload(cfg: Config, s: State, e: Event, s': State, n: string)
    requires WellFormed(s) && Next(cfg, s, e, s')
    ensures s'.devices.Keys == s.devices.Keys
    ensures n in s'.workloads ==>
      && n in s.workloads
      && var w, w' := s.workloads[n], s'.workloads[n];
         && w' == w.(labels := w'.labels, finalizers := w'.finalizers, deleting := w'.deleting)
         && (w.deleting ==> w'.deleting) && (e != DeletionRequested(n) ==> w'.deleting == w.deleting)
         && (InSync(w) ==> w'.labels == w.labels)
         && SameOwnLabels(w.labels, w'.labels)
    ensures n in s.workloads && n !in s'.workloads ==> s.workloads[n].deleting || e == DeletionRequested(n)
  {
    match e {
      case WorkloadRun(m, faults, _) =>
        WorkloadRunKeys(cfg.lookup, s, m, faults);
        WorkloadRunOnWorkloads(cfg.lookup, s, m, faults, n);
      case DeviceRun(m, faults, ok) => DeviceRunEffect(cfg.writeBack, s, m, faults, s', ok);
      case DeletionRequested(m) =>
    }
  }

  lemma StepKeepsWellFormed(cfg: Config, s: State, e: Event, s': State)
    requires WellFormed(s) && Next(cfg, s, e, s')
    ensures WellFormed(s') && s'.devices.Keys == s.devices.Keys
  {
    StepOnWorkload(cfg, s, e, s', "");
    forall dn | dn in s.devices ensures s'.devices[dn].name == dn && DistinctNames(s'.devices[dn].workloads) {
      StepOnDevice(cfg, s, e, s', dn);
    }
    forall n | n in s'.workloads ensures s'.workloads[n].name == n {
      StepOnWorkload(cfg, s, e, s', n);
    }
  }

  /** A step does not change whether the workload selects the device. */
  lemma StepKeepsSelection(cfg: Config, s: State, e: Event, s': State, n: string, dn: string)
    requires WellFormed(s) && Next(cfg, s, e, s') && dn in s.devices && PlainIn(s, n)
    ensures dn in s'.devices && PlainIn(s', n)
    ensures n in s'.workloads ==>
      n in s.workloads && (Selects(s'.workloads[n], s'.devices[dn]) <==> Selects(s.workloads[n], s.devices[dn]))
  {
    StepOnDevice(cfg, s, e, s', dn);
    StepOnWorkload(cfg, s, e, s', n);
    if n in s'.workloads {
      SelectionStable(s.workloads[n], s.devices[dn], s'.devices[dn]);
    }
  }

  /** The target is fixed, except that requesting its deletion empties a workload's. */
  lemma StepKeepsTarget(cfg: Config, s: State, e: Event, s': State, n: string, dn: string)
    requires WellFormed(s) && Next(cfg, s, e, s') && dn in s.devices && PlainIn(s, n)
    requires e != DeletionRequested(n)
    ensures dn in s'.devices && PlainIn(s', n) && (Target(s', n, dn) <==> Target(s, n, dn))
  {
    StepKeepsSelection(cfg, s, e, s', n, dn);
    StepOnWorkload(cfg, s, e, s', n);
  }

  lemma StepKeepsSettled(cfg: Config, s: State, e: Event, s': State, n: string, dn: string)
    requires WellFormed(s) && Next(cfg, s, e, s') && dn in s.devices && PlainIn(s, n) && Settled(s, n, dn)
    ensures dn in s'.devices && Settled(s', n, dn)
  {
    StepOnDevice(cfg, s, e, s', dn);
    StepOnWorkload(cfg, s, e, s', n);
    if n in s'.workloads && !s'.workloads[n].deleting {
      VerdictsStable(s.workloads[n], s.devices[dn], s'.devices[dn]);
      assert s'.workloads[n] == s.workloads[n].(finalizers := s'.workloads[n].finalizers);
    }
  }

  /** The device reconciler matches a settled workload exactly where it belongs. */
  lemma MatchedIsTarget(s: State, dn: string, n: string)
    requires dn in s.devices && Settled(s, n, dn)
    ensures n in Matched(s, s.devices[dn]) <==> Target(s, n, dn)
  {
    MatchedExactly(s, s.devices[dn], n);
  }

  /** No step, whatever fails in it, makes a device wrong about a workload it was right about: not in the entry, and not
      in entry and label. */
  lemma StepKeepsAgreement(cfg: Config, s: State, e: Event, s': State, n: string, dn: string)
    requires WellFormed(s) && Next(cfg, s, e, s') && dn in s.devices && PlainIn(s, n)
    requires Settled(s, n, dn) && Agrees(s, n, dn) && e != DeletionRequested(n)
    ensures dn in s'.devices && Agrees(s', n, dn)
    ensures Right(s, n, dn) ==> Right(s', n, dn)
  {
    StepKeepsTarget(cfg, s, e, s', n, dn);
    match e {
      case WorkloadRun(m, faults, _) =>
        WorkloadRunMoves(cfg.lookup, s, m, faults, dn);
      case DeviceRun(m, faults, ok) =>
        DeviceRunEffect(cfg.writeBack, s, m, faults, s', ok);
        MatchedIsTarget(s, dn, n);
        if m == dn {
          DeviceRunOnLabel(cfg.writeBack, s, dn, faults, s', ok, n);
        }
      case DeletionRequested(m) =>
    }
  }

  /** A device's move toward the target of `m` keeps its entry of `n` backed. */
  lemma MoveKeepsBacked(s: State, m: string, d: Device, d': Device, n: string)
    requires Inv(s, n) && d.name in s.devices && s.devices[d.name] == d && Moves(m, d, d', Target(s, m, d.name))
    requires Lists(d', n)
    ensures Labelled(d', n) || (n in s.workloads && Selects(s.workloads[n], d))
  {
    if Lists(d, n) {
      assert Labelled(d, n) || (n in s.workloads && Selects(s.workloads[n], d));
    }
  }

  ghost predicate LosesFinalizer(s: State, n: string, s': State) {
    && n in s.workloads && FINALIZER in s.workloads[n].finalizers
    && (n in s'.workloads ==> FINALIZER !in s'.workloads[n].finalizers)
  }

  lemma RemovalReaches(lookup: Lookup, s: State, n: string, faults: set<Call>)
    requires WellFormed(s) && n in s.workloads
    requires n !in Reconciled(lookup, s, n, faults).state.workloads || LosesFinalizer(s, n, Reconciled(lookup, s, n, faults).state)
    ensures s.workloads[n].deleting && Reaches(s, n) && Reconciled(lookup, s, n, faults).ok
  {
    var w := s.workloads[n];
    MergePatchOfCurrent(w.labels, w.labels);
  }

  /** What the reconcile that removes a workload leaves on a device, it does not leave unlabelled. */
  lemma RemovalKeepsBacked(lookup: Lookup, s: State, n: string, faults: set<Call>, dn: string)
    requires Inv(s, n) && dn in s.devices && n in s.workloads
    requires n !in Reconciled(lookup, s, n, faults).state.workloads
    requires Lists(Reconciled(lookup, s, n, faults).state.devices[dn], n)
    ensures Labelled(Reconciled(lookup, s, n, faults).state.devices[dn], n)
  {
    RemovalReaches(lookup, s, n, faults);
    WorkloadRunSettles(lookup, s, n, faults, dn);
  }

  lemma WorkloadRunKeepsBacked(cfg: Config, s: State, e: Event, s': State, dn: string, n: string)
    requires Inv(s, n) && e.WorkloadRun? && Next(cfg, s, e, s') && dn in s'.devices && Lists(s'.devices[dn], n)
    ensures Labelled(s'.devices[dn], n) || (n in s'.workloads && Selects(s'.workloads[n], s'.devices[dn]))
  {
    StepOnWorkload(cfg, s, e, s', n);
    StepKeepsSelection(cfg, s, e, s', n, dn);
    if n in s.workloads && n !in s'.workloads {
      WorkloadRunOnWorkloads(cfg.lookup, s, e.workload, e.faults, n);
      RemovalKeepsBacked(cfg.lookup, s, n, e.faults, dn);
    } else {
      WorkloadRunMoves(cfg.lookup, s, e.workload, e.faults, dn);
      MoveKeepsBacked(s, e.workload, s.devices[dn], s'.devices[dn], n);
    }
  }

  lemma DeviceRunKeepsBacked(cfg: Config, s: State, e: Event, s': State, dn: string, n: string)
    requires Inv(s, n) && e.DeviceRun? && Next(cfg, s, e, s') && dn in s'.devices && Lists(s'.devices[dn], n)
    ensures Labelled(s'.devices[dn], n) || (n in s'.workloads && Selects(s'.workloads[n], s'.devices[dn]))
  {
    StepOnWorkload(cfg, s, e, s', n);
    StepKeepsSelection(cfg, s, e, s', n, dn);
    DeviceRunEffect(cfg.writeBack, s, e.device, e.faults, s', e.ok);
    MatchedExactly(s, s.devices[dn], n);
  }

  /** Whatever fails, a status entry keeps its label or its matching workload. Only a user's deletion of a workload that
      has no finalizer can take it away, and then exactly if some entry has no label. */
  lemma StepKeepsBacked(cfg: Config, s: State, e: Event, s': State, n: string)
    requires Inv(s, n) && Next(cfg, s, e, s')
    ensures Inv(s', n) <==>
      (e == DeletionRequested(n) && s.workloads[n].finalizers == [] ==>
         forall dn :: dn in s.devices && Lists(s.devices[dn], n) ==> Labelled(s.devices[dn], n))
  {
    StepKeepsWellFormed(cfg, s, e, s');
    StepOnWorkload(cfg, s, e, s', n);
    if e != DeletionRequested(n) {
      forall dn | dn in s'.devices && Lists(s'.devices[dn], n)
        ensures Labelled(s'.devices[dn], n) || (n in s'.workloads && Selects(s'.workloads[n], s'.devices[dn]))
      {
        match e {
          case WorkloadRun(m, faults, ok) => WorkloadRunKeepsBacked(cfg, s, e, s', dn, n);
          case DeviceRun(m, faults, ok) => DeviceRunKeepsBacked(cfg, s, e, s', dn, n);
          case DeletionRequested(m) =>
        }
      }
    }
  }

  // ---------- Runs ----------

  /** A run from a well-formed store; RunStaysWellFormed shows that each of its states is one. */
  ghost predicate Run(cfg: Config, trace: seq<State>, events: seq<Event>) {
    && |trace| == |events| + 1 && WellFormed(trace[0])
    && forall i :: 0 <= i < |events| ==> WellFormed(trace[i]) ==> Next(cfg, trace[i], events[i], trace[i + 1])
  }

  lemma {:induction false} RunStaysWellFormed(cfg: Config, trace: seq<State>, events: seq<Event>, i: nat)
    requires Run(cfg, trace, events) && i < |trace|
    ensures WellFormed(trace[i]) && trace[i].devices.Keys == trace[0].devices.Keys
    decreases i
  {
    if i > 0 {
      RunStaysWellFormed(cfg, trace, events, i - 1);
      StepKeepsWellFormed(cfg, trace[i - 1], events[i - 1], trace[i]);
    }
  }

  ghost predicate NoDeletion(events: seq<Event>, from: nat, n: string) {
    forall i :: from <= i < |events| ==> events[i] != DeletionRequested(n)
  }

  /** No user deletes the workload while it has no finalizer. */
  ghost predicate DeletionGuarded(trace: seq<State>, events: seq<Event>, n: string)
    requires |trace| == |events| + 1
  {
    forall i :: 0 <= i < |events| && events[i] == DeletionRequested(n) ==>
      n in trace[i].workloads ==> trace[i].workloads[n].finalizers != []
  }

  /** "A status entry has its label or a matching workload" holds in every reachable state, whatever fails. */
  lemma {:induction false} BackedThroughout(cfg: Config, trace: seq<State>, events: seq<Event>, n: string, i: nat)
    requires Run(cfg, trace, events) && Inv(trace[0], n) && DeletionGuarded(trace, events, n) && i < |trace|
    ensures Inv(trace[i], n)
    decreases i
  {
    if i > 0 {
      BackedThroughout(cfg, trace, events, n, i - 1);
      StepKeepsBacked(cfg, trace[i - 1], events[i - 1], trace[i], n);
    }
  }

  lemma StepAt(cfg: Config, trace: seq<State>, events: seq<Event>, i: nat)
    requires Run(cfg, trace, events) && i < |events|
    ensures WellFormed(trace[i]) && WellFormed(trace[i + 1]) && Next(cfg, trace[i], events[i], trace[i + 1])
  {
    RunStaysWellFormed(cfg, trace, events, i);
    RunStaysWellFormed(cfg, trace, events, i + 1);
  }

  lemma KeptByStep(cfg: Config, s: State, e: Event, s': State, n: string, dn: string)
    requires WellFormed(s) && Next(cfg, s, e, s') && dn in s.devices && PlainIn(s, n) && e != DeletionRequested(n)
    ensures dn in s'.devices && PlainIn(s', n) && (Target(s', n, dn) <==> Target(s, n, dn))
    ensures Settled(s, n, dn) ==> Settled(s', n, dn)
    ensures Settled(s, n, dn) && Agrees(s, n, dn) ==> Agrees(s', n, dn)
    ensures Settled(s, n, dn) && Right(s, n, dn) ==> Right(s', n, dn)
  {
    StepKeepsTarget(cfg, s, e, s', n, dn);
    if Settled(s, n, dn) {
      StepKeepsSettled(cfg, s, e, s', n, dn);
      if Agrees(s, n, dn) {
        StepKeepsAgreement(cfg, s, e, s', n, dn);
      }
    }
  }

  /** Between two states of a run, settled stays settled, the target stays, and what agrees goes on agreeing: the entry
      alone, and entry and label together. */
  lemma {:induction false} KeptBetween(cfg: Config, trace: seq<State>, events: seq<Event>, i: nat, j: nat, n: string, dn: string)
    requires Run(cfg, trace, events) && i <= j < |trace| && dn in trace[i].devices
    requires NoDeletion(events, i, n) && PlainIn(trace[i], n)
    ensures dn in trace[j].devices && PlainIn(trace[j], n) && (Target(trace[j], n, dn) <==> Target(trace[i], n, dn))
    ensures Settled(trace[i], n, dn) ==> Settled(trace[j], n, dn)
    ensures Settled(trace[i], n, dn) && Agrees(trace[i], n, dn) ==> Agrees(trace[j], n, dn)
    ensures Settled(trace[i], n, dn) && Right(trace[i], n, dn) ==> Right(trace[j], n, dn)
    decreases j
  {
    if i < j {
      KeptBetween(cfg, trace, events, i, j - 1, n, dn);
      StepAt(cfg, trace, events, j - 1);
      KeptByStep(cfg, trace[j - 1], events[j - 1], trace[j], n, dn);
    }
  }

  /** In every run the labels of a workload that are no selector labels stay as they were. */
  lemma {:induction false} OwnLabelsKept(cfg: Config, trace: seq<State>, events: seq<Event>, i: nat, j: nat, n: string)
    requires Run(cfg, trace, events) && i <= j < |trace| && n in trace[j].workloads
    ensures n in trace[i].workloads && SameOwnLabels(trace[i].workloads[n].labels, trace[j].workloads[n].labels)
    decreases j
  {
    if i < j {
      StepAt(cfg, trace, events, j - 1);
      StepOnWorkload(cfg, trace[j - 1], events[j - 1], trace[j], n);
      OwnLabelsKept(cfg, trace, events, i, j - 1, n);
    }
  }

  /** In every run an entry keeps its phase for as long as its workload is listed. */
  lemma {:induction false} PhaseKept(cfg: Config, trace: seq<State>, events: seq<Event>, i: nat, j: nat, dn: string, p: Placement)
    requires Run(cfg, trace, events) && i <= j < |trace| && dn in trace[i].devices && p in trace[i].devices[dn].workloads
    requires forall k :: i <= k <= j ==> dn in trace[k].devices && Lists(trace[k].devices[dn], p.name)
    ensures p in trace[j].devices[dn].workloads
    decreases j
  {
    if i < j {
      PhaseKept(cfg, trace, events, i, j - 1, dn, p);
      StepAt(cfg, trace, events, j - 1);
      StepOnDevice(cfg, trace[j - 1], events[j - 1], trace[j], dn);
      assert Lists(trace[j].devices[dn], p.name);
      ReworkedKeeps(trace[j - 1].devices[dn].workloads, trace[j].devices[dn].workloads, p);
    }
  }

  /** The devices that disagree with the target of the workload. */
  ghost function Wrong(s: State, n: string): set<string> {
    set dn | dn in s.devices && !Agrees(s, n, dn)
  }

  lemma SubsetSize(a: set<string>, b: set<string>)
    requires a <= b
    ensures |a| <= |b|
  {
    if a != {} {
      var x :| x in a;
      SubsetSize(a - {x}, b - {x});
    }
  }

  /** Progress under failures: of the devices for which a workload is settled, those that disagree with its target only
      become fewer, whatever fails. */
  lemma WrongNeverGrows(cfg: Config, trace: seq<State>, events: seq<Event>, i: nat, j: nat, n: string, devices: set<string>)
    requires Run(cfg, trace, events) && i <= j < |trace| && NoDeletion(events, i, n) && PlainIn(trace[i], n)
    requires forall dn :: dn in devices ==> dn in trace[i].devices && Settled(trace[i], n, dn)
    ensures Wrong(trace[j], n) * devices <= Wrong(trace[i], n) * devices
    ensures |Wrong(trace[j], n) * devices| <= |Wrong(trace[i], n) * devices|
  {
    forall dn | dn in Wrong(trace[j], n) * devices ensures dn in Wrong(trace[i], n) {
      KeptBetween(cfg, trace, events, i, j, n, dn);
    }
    SubsetSize(Wrong(trace[j], n) * devices, Wrong(trace[i], n) * devices);
  }

  /** The devices that the deletion or the eviction of `n` overlooks: they list it, do not match it,
      and are not found as holders. */
  ghost function Overlooked(lookup: Lookup, s: State, n: string): set<string>
    requires n in s.workloads
  {
    set dn | dn in s.devices && Lists(s.devices[dn], n) && !Selects(s.workloads[n], s.devices[dn]) && dn !in Holders(lookup, s, n)
  }

  /** The registered index overlooks nothing. */
  lemma IndexOverlooksNothing(s: State, n: string)
    requires Backed(s, n) && n in s.workloads
    ensures Overlooked(FieldIndex, s, n) == {}
  {
    forall dn | dn in s.devices && Lists(s.devices[dn], n) && !Selects(s.workloads[n], s.devices[dn])
      ensures dn in Holders(FieldIndex, s, n)
    {
      DeviceIndexIsLabel(s.devices[dn], n);
    }
  }

  // ---------- One success ----------

  /** Exactly when a successful device reconcile is right about a workload: when its verdict is that of the workload
      reconciler, which for a workload with one way of choosing devices means that the index finds it if it belongs
      there. A device being deleted stays as it was. */
  lemma DeviceRunAgreesExactly(cfg: Config, s: State, dn: string, faults: set<Call>, s': State, n: string)
    requires WellFormed(s) && Next(cfg, s, DeviceRun(dn, faults, true), s') && dn in s.devices && PlainIn(s, n)
    ensures dn in s'.devices
    ensures s.devices[dn].deleting ==> s' == s
    ensures !s.devices[dn].deleting ==> (Lists(s'.devices[dn], n) <==> n in s.workloads && Finds(s.workloads[n], s.devices[dn]))
    ensures Agrees(s', n, dn) <==>
            if s.devices[dn].deleting then Agrees(s, n, dn)
            else (Target(s, n, dn) <==> n in s.workloads && Finds(s.workloads[n], s.devices[dn]))
    ensures !s.devices[dn].deleting && n in s.workloads && OneTarget(s.workloads[n]) ==>
            (Agrees(s', n, dn) <==> (Target(s, n, dn) ==> Hit(s.workloads[n], s.devices[dn])))
  {
    MatchedExactly(s, s.devices[dn], n);
    if !s.devices[dn].deleting {
      StepKeepsTarget(cfg, s, DeviceRun(dn, faults, true), s', n, dn);
      DeviceRunEffect(cfg.writeBack, s, dn, faults, s', true);
    }
  }

  lemma EnumerationOf(elements: set<string>) returns (names: seq<string>)
    ensures Enumerates(names, elements)
  {
    if elements == {} {
      names := [];
    } else {
      var n :| n in elements;
      var rest := EnumerationOf(elements - {n});
      EnumeratesMore(rest, elements - {n}, n);
      assert elements - {n} + {n} == elements;
      names := rest + [n];
    }
  }

  lemma PatchesPossible(writeBack: bool, s: State, d: Device, updated: Option<Device>, faults: set<Call>) returns (s': State, ok: bool)
    ensures Patched(writeBack, s, d, updated, faults, s', ok)
    ensures faults == {} ==> ok
  {
    s', ok := s, true;
    if updated.Some? {
      var d1 := d.(workloads := updated.value.workloads);
      if PatchStatus(d.name) in faults {
        ok := false;
      } else if PatchLabels(d.name) in faults {
        s', ok := s.(devices := s.devices[d.name := d1]), false;
      } else {
        var d2 := d1.(labels := MergePatch(d.labels, d.labels, LabelsToWrite(writeBack, d, updated.value)));
        s' := s.(devices := s.devices[d.name := d2]);
      }
    }
  }

  /** A device can be reconciled in every store; without failing calls and invalid selectors, with success. */
  lemma DeviceRunPossible(cfg: Config, s: State, dn: string, faults: set<Call>) returns (s': State, ok: bool)
    requires WellFormed(s)
    ensures Next(cfg, s, DeviceRun(dn, faults, ok), s')
    ensures faults == {} && (dn in s.devices ==> !LookupFails(s, s.devices[dn], faults)) ==> ok
  {
    s', ok := s, ReadDevice !in faults;
    if ok && dn in s.devices && !s.devices[dn].deleting {
      var d := s.devices[dn];
      if LookupFails(s, d, faults) {
        ok := false;
      } else {
        var wanted := Matched(s, d);
        var added := EnumerationOf(wanted - NamesIn(d.workloads));
        var kept := Kept(d.workloads, wanted);
        var updated := if |kept| == |d.workloads| && added == [] then None else Some(d.(
          workloads := kept + Deployments(added),
          labels := WithLabels(d.labels - DroppedLabels(d.workloads, wanted), added)));
        assert IsUpdate(wanted, d, updated, added);
        s', ok := PatchesPossible(cfg.writeBack, s, d, updated, faults);
      }
    }
  }

  /** After a fully successful reconcile of a workload, the devices that disagree are exactly those it overlooks. */
  lemma WorkloadRunCorrects(lookup: Lookup, s: State, n: string, faults: set<Call>)
    requires WellFormed(s) && PlainIn(s, n) && Reaches(s, n) && Reconciled(lookup, s, n, faults).ok
    ensures var s' := Reconciled(lookup, s, n, faults).state;
            Wrong(s', n) == Overlooked(lookup, s, n)
  {
    var s' := Reconciled(lookup, s, n, faults).state;
    WorkloadRunKeys(lookup, s, n, faults);
    var e := WorkloadRun(n, faults, true);
    var cfg := Config(lookup, false);
    forall dn | dn in s.devices
      ensures dn in Wrong(s', n) <==> dn in Overlooked(lookup, s, n)
    {
      StepKeepsTarget(cfg, s, e, s', n, dn);
      WorkloadRunSettles(lookup, s, n, faults, dn);
    }
  }

  /** With the index, the placement label is corrected as well. */
  lemma WorkloadRunCorrectsLabels(s: State, n: string, faults: set<Call>, dn: string)
    requires WellFormed(s) && Backed(s, n) && Reaches(s, n) && Reconciled(FieldIndex, s, n, faults).ok && dn in s.devices
    ensures var s' := Reconciled(FieldIndex, s, n, faults).state;
            && dn in s'.devices
            && (Lists(s'.devices[dn], n) <==> Target(s, n, dn))
            && (Labelled(s'.devices[dn], n) <==> Target(s, n, dn))
  {
    WorkloadRunKeys(FieldIndex, s, n, faults);
    WorkloadRunSettles(FieldIndex, s, n, faults, dn);
    DeviceIndexIsLabel(s.devices[dn], n);
  }

  // ---------- What a reconcile reports ----------

  /** A reconcile asks to be called again exactly for an error or after writing the finalizer. */
  lemma ReconcileAsksAgain(lookup: Lookup, s: State, n: string, faults: set<Call>)
    requires WellFormed(s)
    ensures var r := Reconciled(lookup, s, n, faults);
      r.requeue <==> !r.ok || (n in s.workloads && !s.workloads[n].deleting && FINALIZER !in s.workloads[n].finalizers)
  {
  }

  /** A reconcile that does not get as far as the devices: of a missing workload, of one without the finalizer, which
      becomes its only one, of one with stale selector labels, and of one being deleted that is not the operator's. */
  lemma ReconcileBeforeDevices(lookup: Lookup, s: State, n: string, faults: set<Call>)
    requires WellFormed(s)
    ensures var r := Reconciled(lookup, s, n, faults);
      && (ReadWorkload in faults ==> !r.ok && !r.wrote && r.state == s)
      && (ReadWorkload !in faults && n !in s.workloads ==> r.ok && !r.requeue && !r.wrote && r.state == s)
      && (ReadWorkload !in faults && n in s.workloads ==>
            var w := s.workloads[n];
            && (!w.deleting && "yggdrasil-device-reference-finalizer" !in w.finalizers ==>
                  && (r.ok <==> PatchWorkload !in faults) && r.wrote
                  && r.state == if r.ok
                                then s.(workloads := s.workloads[n := w.(finalizers := ["yggdrasil-device-reference-finalizer"])])
                                else s)
            && (!w.deleting && "yggdrasil-device-reference-finalizer" in w.finalizers && !InSync(w) ==>
                  && (r.ok <==> PatchWorkload !in faults) && !(r.ok && r.requeue) && r.wrote
                  && r.state == if r.ok then s.(workloads := s.workloads[n := w.(labels := SelectorLabels(w))]) else s)
            && (w.deleting && "yggdrasil-device-reference-finalizer" !in w.finalizers ==>
                  && (r.ok <==> ListHolders !in faults && !MatchingFails(w, faults)) && !r.wrote && r.state == s))
  {
    if n in s.workloads {
      var w := s.workloads[n];
      MergePatchOfCurrent(w.labels, w.labels);
      MergePatchOfCurrent(w.labels, SelectorLabels(w));
    }
  }

  lemma EvictionFailsExactly(s: State, n: string, matching: set<string>, holders: set<string>, placed: map<string, Device>,
                             faults: set<Call>)
    requires placed.Keys == s.devices.Keys && holders <= s.devices.Keys
    requires forall dn :: dn in s.devices ==>
      DeviceErrors(Evict(n, matching), placed[dn], faults) == if dn in matching then [] else DeviceErrors(Evict(n, {}), s.devices[dn], faults)
    ensures JobFails(Evict(n, matching), holders, faults, placed) <==>
      exists dn :: dn in holders && dn !in matching && DeviceErrors(Evict(n, {}), s.devices[dn], faults) != []
  {
  }

  /** Exactly when a reconcile of a live synchronised workload succeeds: when the lists can be read, every matching
      device takes what it lacks, and every other holder what it has too much. */
  lemma PlacementSucceedsExactly(lookup: Lookup, s: State, n: string, faults: set<Call>)
    requires WellFormed(s) && Reaches(s, n) && !s.workloads[n].deleting
    ensures Reconciled(lookup, s, n, faults).ok <==>
      && faults !! {ReadWorkload, ListHolders} && !MatchingFails(s.workloads[n], faults)
      && (forall dn :: dn in s.devices && Selects(s.workloads[n], s.devices[dn]) ==> DeviceErrors(Place(n), s.devices[dn], faults) == [])
      && (forall dn :: dn in s.devices && Holds(lookup, s.devices[dn], n) && !Selects(s.workloads[n], s.devices[dn]) ==>
            DeviceErrors(Evict(n, {}), s.devices[dn], faults) == [])
  {
    var w := s.workloads[n];
    var matching, holders := Matching(s, w), Holders(lookup, s, n);
    var placed := OnDevices(Place(n), matching, faults, s.devices);
    PlacedElsewhere(n, matching, faults, s.devices);
    var needed := {ReadWorkload, ListHolders};
    assert ReadWorkload in needed && ListHolders in needed;
    forall dn | dn in s.devices
      ensures DeviceErrors(Evict(n, matching), placed[dn], faults) == if dn in matching then [] else DeviceErrors(Evict(n, {}), s.devices[dn], faults)
    {
      assert placed[dn].name == dn;
    }
    EvictionFailsExactly(s, n, matching, holders, placed, faults);
  }

  /** If placing fails anywhere, the reconcile ends there: nothing is evicted. */
  lemma FailedPlacingEvictsNothing(lookup: Lookup, s: State, n: string, faults: set<Call>, failing: string, dn: string)
    requires WellFormed(s) && Reaches(s, n) && !s.workloads[n].deleting
    requires failing in s.devices && Selects(s.workloads[n], s.devices[failing])
    requires DeviceErrors(Place(n), s.devices[failing], faults) != []
    requires dn in s.devices && !Selects(s.workloads[n], s.devices[dn])
    ensures dn in Reconciled(lookup, s, n, faults).state.devices
    ensures Reconciled(lookup, s, n, faults).state.devices[dn] == s.devices[dn]
  {
    assert failing in Matching(s, s.workloads[n]);
  }

  /** Exactly when a reconcile of a device reports success. */
  lemma DeviceRunReports(writeBack: bool, s: State, dn: string, faults: set<Call>, s': State, ok: bool)
    requires WellFormed(s) && Reconciles(writeBack, s, dn, faults, s', ok)
    ensures ok <==>
      && ReadDevice !in faults
      && (dn in s.devices && !s.devices[dn].deleting ==>
            var d := s.devices[dn];
            && (forall q :: q in Queries(d) ==> ListByLabel(q) !in faults)
            && (forall n :: n in s.workloads && Hit(s.workloads[n], d) ==> IsWorkloadMatchDevice(s.workloads[n], d).Some?)
            && (NamesIn(d.workloads) == Matched(s, d) || (PatchStatus(dn) !in faults && PatchLabels(dn) !in faults)))
  {
    if ReadDevice !in faults && dn in s.devices && !s.devices[dn].deleting {
      var d := s.devices[dn];
      forall n ensures n in Candidates(s, d) <==> n in s.workloads && Hit(s.workloads[n], d) {
      }
      if !LookupFails(s, d, faults) {
        var updated, added :| IsUpdate(Matched(s, d), d, updated, added) && Patched(writeBack, s, d, updated, faults, s', ok);
        UpdateIsExact(Matched(s, d), d, updated, added);
      }
    }
  }

  // ---------- Convergence ----------

  /** Convergence by workload: after one successful reconcile of `n`, amid any other reconciles and failures, every
      device for which it is settled lists `n` exactly when it should; with the index its label is right as well. */
  lemma ConvergesByWorkload(cfg: Config, trace: seq<State>, events: seq<Event>, i: nat, faults: set<Call>, n: string, dn: string)
    requires Run(cfg, trace, events) && i < |events| && dn in trace[i].devices
    requires events[i] == WorkloadRun(n, faults, true) && Reaches(trace[i], n) && NoDeletion(events, i, n)
    requires PlainIn(trace[i], n) && Settled(trace[i], n, dn) && Overlooked(cfg.lookup, trace[i], n) == {}
    ensures var last := trace[|events|];
            && dn in last.devices && Agrees(last, n, dn) && (Target(last, n, dn) <==> Target(trace[i], n, dn))
            && (cfg.lookup == FieldIndex && Backed(trace[i], n) ==> Right(last, n, dn))
  {
    StepAt(cfg, trace, events, i);
    WorkloadRunCorrects(cfg.lookup, trace[i], n, faults);
    WorkloadRunKeys(cfg.lookup, trace[i], n, faults);
    assert dn !in Wrong(trace[i + 1], n);
    if cfg.lookup == FieldIndex && Backed(trace[i], n) {
      WorkloadRunCorrectsLabels(trace[i], n, faults, dn);
    }
    KeptByStep(cfg, trace[i], events[i], trace[i + 1], n, dn);
    assert NoDeletion(events, i + 1, n);
    KeptBetween(cfg, trace, events, i + 1, |events|, n, dn);
  }

  /** Convergence by device: after one successful reconcile of a device that is not being deleted, it is right about
      each workload that was settled for it then, and goes on being right. */
  lemma ConvergesByDevice(cfg: Config, trace: seq<State>, events: seq<Event>, i: nat, faults: set<Call>, dn: string, n: string)
    requires Run(cfg, trace, events) && i < |events| && dn in trace[i].devices
    requires events[i] == DeviceRun(dn, faults, true) && NoDeletion(events, i, n)
    requires PlainIn(trace[i], n) && Settled(trace[i], n, dn) && !trace[i].devices[dn].deleting
    ensures var last := trace[|events|];
            dn in last.devices && Agrees(last, n, dn) && (Target(last, n, dn) <==> Target(trace[i], n, dn))
  {
    StepAt(cfg, trace, events, i);
    DeviceRunAgreesExactly(cfg, trace[i], dn, faults, trace[i + 1], n);
    KeptByStep(cfg, trace[i], events[i], trace[i + 1], n, dn);
    assert NoDeletion(events, i + 1, n);
    KeptBetween(cfg, trace, events, i + 1, |events|, n, dn);
  }

  /** Some reconcile of the workload in the run succeeds, reaches the devices and, with a label query, overlooks none. */
  ghost predicate WorkloadSucceeds(cfg: Config, trace: seq<State>, events: seq<Event>, n: string)
    requires |trace| == |events| + 1
  {
    exists i, faults :: 0 <= i < |events| && events[i] == WorkloadRun(n, faults, true) && Reaches(trace[i], n)
      && (cfg.lookup == FieldIndex || Overlooked(cfg.lookup, trace[i], n) == {})
  }

  ghost predicate DeviceSucceeds(events: seq<Event>, dn: string) {
    exists i, faults :: 0 <= i < |events| && events[i] == DeviceRun(dn, faults, true)
  }

  lemma {:induction false} DevicesAlive(cfg: Config, trace: seq<State>, events: seq<Event>, i: nat, dn: string)
    requires Run(cfg, trace, events) && i < |trace| && dn in trace[0].devices
    ensures dn in trace[i].devices && trace[i].devices[dn].deleting == trace[0].devices[dn].deleting
    decreases i
  {
    if i > 0 {
      DevicesAlive(cfg, trace, events, i - 1, dn);
      StepAt(cfg, trace, events, i - 1);
      StepOnDevice(cfg, trace[i - 1], events[i - 1], trace[i], dn);
    }
  }

  /** Two controllers, one target. For a workload settled for a device that is not being deleted and lists only what
      exists, a run in which a reconcile of the workload succeeds and a run in which one of the device does end in the
      same placement, whatever else they do, in whatever order, and with whatever failures on the way. */
  lemma OneTargetForBoth(cfg: Config, traceW: seq<State>, eventsW: seq<Event>, traceD: seq<State>, eventsD: seq<Event>,
                         n: string, dn: string)
    requires Run(cfg, traceW, eventsW) && Run(cfg, traceD, eventsD) && traceW[0] == traceD[0]
    requires dn in traceW[0].devices && !traceW[0].devices[dn].deleting
    requires PlainIn(traceW[0], n) && Settled(traceW[0], n, dn) && (cfg.lookup == FieldIndex ==> Inv(traceW[0], n))
    requires NoDeletion(eventsW, 0, n) && NoDeletion(eventsD, 0, n)
    requires Lists(traceW[0].devices[dn], n) ==> n in traceW[0].workloads
    requires (n in traceW[0].workloads ==> WorkloadSucceeds(cfg, traceW, eventsW, n)) && DeviceSucceeds(eventsD, dn)
    ensures var lastW, lastD := traceW[|eventsW|], traceD[|eventsD|];
            && dn in lastW.devices && dn in lastD.devices
            && (Lists(lastW.devices[dn], n) <==> Target(traceW[0], n, dn))
            && (Lists(lastD.devices[dn], n) <==> Target(traceW[0], n, dn))
  {
    if n in traceW[0].workloads {
      var i, faults :| 0 <= i < |eventsW| && eventsW[i] == WorkloadRun(n, faults, true) && Reaches(traceW[i], n)
        && (cfg.lookup == FieldIndex || Overlooked(cfg.lookup, traceW[i], n) == {});
      KeptBetween(cfg, traceW, eventsW, 0, i, n, dn);
      if cfg.lookup == FieldIndex {
        BackedThroughout(cfg, traceW, eventsW, n, i);
        IndexOverlooksNothing(traceW[i], n);
      }
      assert NoDeletion(eventsW, i, n);
      ConvergesByWorkload(cfg, traceW, eventsW, i, faults, n, dn);
    } else {
      KeptBetween(cfg, traceW, eventsW, 0, |eventsW|, n, dn);
    }
    var i, faults :| 0 <= i < |eventsD| && eventsD[i] == DeviceRun(dn, faults, true);
    KeptBetween(cfg, traceD, eventsD, 0, i, n, dn);
    DevicesAlive(cfg, traceD, eventsD, i, dn);
    assert NoDeletion(eventsD, i, n);
    ConvergesByDevice(cfg, traceD, eventsD, i, faults, dn, n);
  }

  // ---------- Two verdicts ----------

  /** A live workload whose selector labels are up to date, so that nothing in a run changes either verdict on it. */
  ghost predicate Steady(s: State, n: string) {
    n in s.workloads && !s.workloads[n].deleting && InSync(s.workloads[n]) && Plain(s.workloads[n])
  }

  lemma StepKeepsVerdicts(cfg: Config, s: State, e: Event, s': State, n: string, dn: string)
    requires WellFormed(s) && Next(cfg, s, e, s') && dn in s.devices && Steady(s, n) && e != DeletionRequested(n)
    ensures dn in s'.devices && Steady(s', n)
    ensures Selects(s'.workloads[n], s'.devices[dn]) == Selects(s.workloads[n], s.devices[dn])
    ensures Finds(s'.workloads[n], s'.devices[dn]) == Finds(s.workloads[n], s.devices[dn])
  {
    StepOnDevice(cfg, s, e, s', dn);
    StepOnWorkload(cfg, s, e, s', n);
    VerdictsStable(s.workloads[n], s.devices[dn], s'.devices[dn]);
    assert s'.workloads[n] == s.workloads[n].(finalizers := s'.workloads[n].finalizers);
  }

  lemma {:induction false} VerdictsKept(cfg: Config, trace: seq<State>, events: seq<Event>, i: nat, n: string, dn: string)
    requires Run(cfg, trace, events) && i < |trace| && dn in trace[0].devices && Steady(trace[0], n) && NoDeletion(events, 0, n)
    ensures dn in trace[i].devices && Steady(trace[i], n)
    ensures Selects(trace[i].workloads[n], trace[i].devices[dn]) == Selects(trace[0].workloads[n], trace[0].devices[dn])
    ensures Finds(trace[i].workloads[n], trace[i].devices[dn]) == Finds(trace[0].workloads[n], trace[0].devices[dn])
    decreases i
  {
    if i > 0 {
      VerdictsKept(cfg, trace, events, i - 1, n, dn);
      StepAt(cfg, trace, events, i - 1);
      StepKeepsVerdicts(cfg, trace[i - 1], events[i - 1], trace[i], n, dn);
    }
  }

  /** In every run, after each successful reconcile of the workload the device lists it exactly if the workload selects
      the device, and after each successful reconcile of the device exactly if the device finds the workload. So where
      the verdicts differ, the reconcilers undo each other's work for ever, and only there. */
  lemma EachFollowsItsVerdict(cfg: Config, trace: seq<State>, events: seq<Event>, i: nat, faultsW: set<Call>, j: nat,
                              faultsD: set<Call>, n: string, dn: string)
    requires Run(cfg, trace, events) && dn in trace[0].devices && Steady(trace[0], n) && NoDeletion(events, 0, n)
    requires i < |events| && events[i] == WorkloadRun(n, faultsW, true) && Reaches(trace[i], n)
    requires Overlooked(cfg.lookup, trace[i], n) == {}
    requires j < |events| && events[j] == DeviceRun(dn, faultsD, true) && !trace[0].devices[dn].deleting
    ensures var w, d := trace[0].workloads[n], trace[0].devices[dn];
      && dn in trace[i + 1].devices && dn in trace[j + 1].devices
      && (Lists(trace[i + 1].devices[dn], n) <==> Selects(w, d))
      && (Lists(trace[j + 1].devices[dn], n) <==> Finds(w, d))
      && ((Lists(trace[i + 1].devices[dn], n) <==> Lists(trace[j + 1].devices[dn], n)) <==> Settled(trace[0], n, dn))
  {
    VerdictsKept(cfg, trace, events, i, n, dn);
    VerdictsKept(cfg, trace, events, i + 1, n, dn);
    StepAt(cfg, trace, events, i);
    WorkloadRunCorrects(cfg.lookup, trace[i], n, faultsW);
    assert dn !in Wrong(trace[i + 1], n);
    VerdictsKept(cfg, trace, events, j, n, dn);
    StepAt(cfg, trace, events, j);
    DevicesAlive(cfg, trace, events, j, dn);
    DeviceRunAgreesExactly(cfg, trace[j], dn, faultsD, trace[j + 1], n);
  }

  // ---------- Deletion ----------

  ghost predicate HeldNowhere(s: State, n: string) {
    forall dn :: dn in s.devices ==> !Lists(s.devices[dn], n)
  }

  /** The step that takes the finalizer from a workload leaves no device listing it, exactly when it overlooks none. */
  lemma FinalizerStep(cfg: Config, s: State, e: Event, s': State, n: string)
    requires WellFormed(s) && Next(cfg, s, e, s') && LosesFinalizer(s, n, s')
    ensures s.workloads[n].deleting && s'.devices.Keys == s.devices.Keys
    ensures forall dn :: dn in s'.devices && Lists(s'.devices[dn], n) <==> dn in Overlooked(cfg.lookup, s, n)
    ensures HeldNowhere(s', n) <==> Overlooked(cfg.lookup, s, n) == {}
  {
    match e {
      case WorkloadRun(m, faults, ok) =>
        WorkloadRunOnWorkloads(cfg.lookup, s, m, faults, n);
        assert m == n;
        RemovalReaches(cfg.lookup, s, n, faults);
        WorkloadRunKeys(cfg.lookup, s, n, faults);
        forall dn ensures dn in s'.devices && Lists(s'.devices[dn], n) <==> dn in Overlooked(cfg.lookup, s, n) {
          if dn in s.devices {
            WorkloadRunSettles(cfg.lookup, s, n, faults, dn);
          }
        }
      case DeviceRun(m, faults, ok) =>
        DeviceRunEffect(cfg.writeBack, s, m, faults, s', ok);
        assert false;
      case DeletionRequested(m) =>
        assert false;
    }
  }

  /** The workload is gone, or waits without its finalizer for others to be taken off. */
  ghost predicate Released(s: State, n: string) {
    n in s.workloads ==> s.workloads[n].deleting && FINALIZER !in s.workloads[n].finalizers
  }

  lemma StepKeepsReleased(cfg: Config, s: State, e: Event, s': State, n: string)
    requires WellFormed(s) && Next(cfg, s, e, s') && Released(s, n) && HeldNowhere(s, n)
    ensures Released(s', n) && HeldNowhere(s', n)
  {
    StepOnWorkload(cfg, s, e, s', n);
    match e {
      case WorkloadRun(m, faults, ok) =>
        WorkloadRunOnWorkloads(cfg.lookup, s, m, faults, n);
        forall dn | dn in s.devices ensures !Lists(s'.devices[dn], n) {
          WorkloadRunMoves(cfg.lookup, s, m, faults, dn);
        }
      case DeviceRun(m, faults, ok) =>
        DeviceRunEffect(cfg.writeBack, s, m, faults, s', ok);
        if m in s.devices {
          MatchedExactly(s, s.devices[m], n);
        }
      case DeletionRequested(m) =>
    }
  }

  /** Deletion safety over runs: a workload loses its finalizer only when no device of the store lists it any more, in
      every reachable state and whatever failed before, and no device ever lists it again. With the label query, the
      step must overlook no device. */
  lemma {:induction false} DeletionSafety(cfg: Config, trace: seq<State>, events: seq<Event>, i: nat, n: string, j: nat)
    requires Run(cfg, trace, events) && i < |events| && i < j < |trace| && LosesFinalizer(trace[i], n, trace[i + 1])
    requires if cfg.lookup == FieldIndex then Inv(trace[0], n) && DeletionGuarded(trace, events, n)
             else Overlooked(cfg.lookup, trace[i], n) == {}
    ensures HeldNowhere(trace[j], n) && Released(trace[j], n)
    decreases j
  {
    StepAt(cfg, trace, events, j - 1);
    if j == i + 1 {
      if cfg.lookup == FieldIndex {
        BackedThroughout(cfg, trace, events, n, i);
        IndexOverlooksNothing(trace[i], n);
      }
      FinalizerStep(cfg, trace[i], events[i], trace[i + 1], n);
      StepOnWorkload(cfg, trace[i], events[i], trace[i + 1], n);
    } else {
      DeletionSafety(cfg, trace, events, i, n, j - 1);
      StepKeepsReleased(cfg, trace[j - 1], events[j - 1], trace[j], n);
    }
  }

  /** Nothing fails in the reconcile of a workload being deleted before its finalizer is to be taken off. */
  ghost predicate CleanRemoval(lookup: Lookup, s: State, n: string, faults: set<Call>)
    requires n in s.workloads
  {
    && faults !! {ReadWorkload, ListHolders} && !MatchingFails(s.workloads[n], faults)
    && !JobFails(Evict(n, {}), Matching(s, s.workloads[n]) + Holders(lookup, s, n), faults, s.devices)
  }

  /** Exactly when a reconcile of a workload being deleted reports success, and exactly when it takes the finalizer off;
      the two differ when the finalizer's own patch fails. */
  lemma RemovalCompletes(lookup: Lookup, s: State, n: string, faults: set<Call>)
    requires WellFormed(s) && n in s.workloads && s.workloads[n].deleting && FINALIZER in s.workloads[n].finalizers
    ensures var r := Reconciled(lookup, s, n, faults);
      && (r.ok <==> CleanRemoval(lookup, s, n, faults))
      && (r.ok ==> !r.requeue)
      && (LosesFinalizer(s, n, r.state) <==> CleanRemoval(lookup, s, n, faults) && RemoveFinalizer !in faults)
      && (n !in r.state.workloads <==>
            CleanRemoval(lookup, s, n, faults) && RemoveFinalizer !in faults
            && forall f :: f in s.workloads[n].finalizers ==> f == FINALIZER)
  {
    var w := s.workloads[n];
    var needed := {ReadWorkload, ListHolders};
    assert ReadWorkload in needed && ListHolders in needed;
    MergePatchOfCurrent(w.labels, w.labels);
    FinalizersLessExact(w.finalizers, FINALIZER);
    var left := FinalizersLess(w.finalizers, FINALIZER);
    if left != [] {
      assert left[0] in left;
    }
  }

  /** A workload that has its finalizer and a selector that cannot be evaluated. */
  ghost predicate Unremovable(s: State, n: string) {
    && n in s.workloads && FINALIZER in s.workloads[n].finalizers
    && s.workloads[n].device == "" && s.workloads[n].selector.Some? && !SelectorValid(s.workloads[n].selector.value)
  }

  lemma StepKeepsUnremovable(cfg: Config, s: State, e: Event, s': State, n: string)
    requires WellFormed(s) && Next(cfg, s, e, s') && Unremovable(s, n)
    ensures Unremovable(s', n)
  {
    match e {
      case WorkloadRun(m, faults, ok) =>
        WorkloadRunOnWorkloads(cfg.lookup, s, m, faults, n);
        if m == n && (n !in s'.workloads || LosesFinalizer(s, n, s')) {
          RemovalReaches(cfg.lookup, s, n, faults);
          RemovalCompletes(cfg.lookup, s, n, faults);
          assert false;
        }
      case DeviceRun(m, faults, ok) => DeviceRunEffect(cfg.writeBack, s, m, faults, s', ok);
      case DeletionRequested(m) =>
    }
  }

  /** An invalid selector blocks a workload's deletion for ever, in every run. */
  lemma {:induction false} InvalidSelectorBlocksDeletion(cfg: Config, trace: seq<State>, events: seq<Event>, n: string, j: nat)
    requires Run(cfg, trace, events) && Unremovable(trace[0], n) && j < |trace|
    ensures Unremovable(trace[j], n)
    decreases j
  {
    if j > 0 {
      InvalidSelectorBlocksDeletion(cfg, trace, events, n, j - 1);
      StepAt(cfg, trace, events, j - 1);
      StepKeepsUnremovable(cfg, trace[j - 1], events[j - 1], trace[j], n);
    }
  }

  // ---------- Stores in which the promises fail ----------

  const HOLDER := Device("d", map["workload/w" := "true"], [Placement("w", "Running")], false)
  const LEAVING := Workload("w", map[], [FINALIZER], true, "", None)
  const BEFORE_REMOVAL := State(map["d" := HOLDER], map["w" := LEAVING])

  lemma HolderAgrees(n: string)
    ensures Agreement(HOLDER) && Labelled(HOLDER, "w") && Lists(HOLDER, "w")
    ensures Lists(HOLDER, n) ==> n == "w"
    ensures Inv(BEFORE_REMOVAL, n)
  {
    assert "workload/w" == WorkloadLabel("w");
    assert HOLDER.workloads[0].name == "w";
    forall m ensures Lists(HOLDER, m) <==> Labelled(HOLDER, m) {
      WorkloadLabelsDistinct(m, "w");
    }
  }

  /** With the label query in place of the index, the same reconcile drops a workload that a device still lists,
      although entry and label agree there. */
  lemma LabelQueryLosesPlacement()
    ensures (forall n :: Inv(BEFORE_REMOVAL, n)) && Agreement(HOLDER)
    ensures var s' := Reconciled(LabelQuery, BEFORE_REMOVAL, "w", {}).state;
            "w" !in s'.workloads && !HeldNowhere(s', "w")
  {
    forall n { HolderAgrees(n); }
    var s := BEFORE_REMOVAL;
    var r := Reconciled(LabelQuery, s, "w", {});
    assert DEVICE_BY_WORKLOAD_INDEX_KEY != "workload/w";
    assert Holders(LabelQuery, s, "w") == {};
    assert Matching(s, LEAVING) == {};
    assert FINALIZER in LEAVING.finalizers;
    assert FinalizersLess([FINALIZER], FINALIZER) == [] by {
      assert [FINALIZER][1..] == [];
    }
    MergePatchOfCurrent(LEAVING.labels, LEAVING.labels);
    assert "w" !in r.state.workloads;
    assert r.state.devices["d"] == HOLDER;
    assert HOLDER.workloads[0].name == "w";
  }

  const UNLABELLED := Workload("w", map[], [FINALIZER], false, "d", None)
  const BEFORE_LABELS := State(map["d" := HOLDER], map["w" := UNLABELLED])

  lemma UnlabelledIsRight()
    ensures (forall n :: Inv(BEFORE_LABELS, n)) && Right(BEFORE_LABELS, "w", "d") && Target(BEFORE_LABELS, "w", "d")
  {
    forall n { HolderAgrees(n); }
  }

  /** Without the workload's selector labels, a device reconcile drops a placement that was right: this is why the
      pairs that disagree are counted for settled workloads. */
  lemma UnsettledPlacementIsDropped(cfg: Config)
    ensures (forall n :: Inv(BEFORE_LABELS, n)) && Right(BEFORE_LABELS, "w", "d") && Target(BEFORE_LABELS, "w", "d")
    ensures exists s' :: Next(cfg, BEFORE_LABELS, DeviceRun("d", {}, true), s') && "d" in s'.devices && !Lists(s'.devices["d"], "w")
  {
    UnlabelledIsRight();
    assert WorkloadIndexKeys(UNLABELLED) == {};
    assert Candidates(BEFORE_LABELS, HOLDER) == {};
    var s', ok := DeviceRunPossible(cfg, BEFORE_LABELS, "d", {});
    DeviceRunAgreesExactly(cfg, BEFORE_LABELS, "d", {}, s', "w");
  }

  const EVERYWHERE := Workload("w", map[], [FINALIZER], false, "", Some(Selector(map[], [])))
  const EMPTY := Device("d", map[], [], false)
  const BEFORE_PLACING := State(map["d" := EMPTY], map["w" := EVERYWHERE])

  lemma EverywhereIsNotFound()
    ensures (forall n :: Inv(BEFORE_PLACING, n)) && Steady(BEFORE_PLACING, "w")
    ensures Selects(EVERYWHERE, EMPTY) && !Finds(EVERYWHERE, EMPTY)
  {
    var s := Selector(map[], []);
    assert DerivedLabels(EVERYWHERE) == map[];
    assert InSync(EVERYWHERE);
    assert WorkloadIndexKeys(EVERYWHERE) == {};
  }

  lemma ValidSelectors(cfg: Config, s: State, s': State)
    requires s == BEFORE_PLACING && WellFormed(s) && Next(cfg, s, WorkloadRun("w", {}, true), s') && "d" in s'.devices
    ensures !LookupFails(s', s'.devices["d"], {})
  {
    forall n | n in s'.workloads ensures IsWorkloadMatchDevice(s'.workloads[n], s'.devices["d"]).Some? {
      StepOnWorkload(cfg, s, WorkloadRun("w", {}, true), s', n);
    }
  }

  /** A workload with an empty selector selects every device, and no device finds it: each successful reconcile of the
      workload places it, each successful one of the device drops it. */
  lemma EmptySelectorIsFoughtOver(cfg: Config) returns (s1: State, s2: State)
    ensures (forall n :: Inv(BEFORE_PLACING, n)) && Steady(BEFORE_PLACING, "w")
    ensures Selects(EVERYWHERE, EMPTY) && !Finds(EVERYWHERE, EMPTY)
    ensures Next(cfg, BEFORE_PLACING, WorkloadRun("w", {}, true), s1) && WellFormed(s1)
    ensures "d" in s1.devices && Lists(s1.devices["d"], "w")
    ensures Next(cfg, s1, DeviceRun("d", {}, true), s2)
    ensures "d" in s2.devices && !Lists(s2.devices["d"], "w")
  {
    var s := BEFORE_PLACING;
    EverywhereIsNotFound();
    s1 := Reconciled(cfg.lookup, s, "w", {}).state;
    assert Reaches(s, "w") && Reconciled(cfg.lookup, s, "w", {}).ok;
    StepKeepsWellFormed(cfg, s, WorkloadRun("w", {}, true), s1);
    WorkloadRunCorrects(cfg.lookup, s, "w", {});
    assert "d" !in Wrong(s1, "w");
    StepKeepsVerdicts(cfg, s, WorkloadRun("w", {}, true), s1, "w", "d");
    StepOnDevice(cfg, s, WorkloadRun("w", {}, true), s1, "d");
    ValidSelectors(cfg, s, s1);
    var ok;
    s2, ok := DeviceRunPossible(cfg, s1, "d", {});
    DeviceRunAgreesExactly(cfg, s1, "d", {}, s2, "w");
  }

  const UNPLACED := Workload("w", map[], [FINALIZER], false, "", None)
  const BEFORE_EVICTION := State(map["d" := HOLDER.(deleting := true)], map["w" := UNPLACED])

  lemma EvictionDue()
    ensures (forall n :: Inv(BEFORE_EVICTION, n) && Settled(BEFORE_EVICTION, n, "d")) && !Agrees(BEFORE_EVICTION, "w", "d")
    ensures Reaches(BEFORE_EVICTION, "w")
  {
    var s := BEFORE_EVICTION;
    forall n { HolderAgrees(n); }
    assert s.devices["d"].workloads == HOLDER.workloads && s.devices["d"].labels == HOLDER.labels;
    assert SelectorLabels(UNPLACED) == map[];
    assert WorkloadIndexKeys(UNPLACED) == {};
    assert FINALIZER in UNPLACED.finalizers;
    assert forall n :: Lists(s.devices["d"], n) ==> Lists(HOLDER, n) && Labelled(s.devices["d"], n) == Labelled(HOLDER, n);
    assert Lists(s.devices["d"], "w") by {
      assert s.devices["d"].workloads[0].name == "w";
    }
  }

  /** The reconcilers treat a device that is being deleted differently: the device's own reconcile succeeds and leaves
      it wrong, the workload's puts it right. */
  lemma DeletingDeviceIsLeft(cfg: Config)
    ensures (forall n :: Inv(BEFORE_EVICTION, n) && Settled(BEFORE_EVICTION, n, "d")) && !Agrees(BEFORE_EVICTION, "w", "d")
    ensures Next(cfg, BEFORE_EVICTION, DeviceRun("d", {}, true), BEFORE_EVICTION)
    ensures var r := Reconciled(FieldIndex, BEFORE_EVICTION, "w", {});
            r.ok && "d" in r.state.devices && Agrees(r.state, "w", "d")
  {
    EvictionDue();
    var s := BEFORE_EVICTION;
    assert Inv(s, "w");
    assert Reconciled(FieldIndex, s, "w", {}).ok;
    WorkloadRunCorrects(FieldIndex, s, "w", {});
    WorkloadRunKeys(FieldIndex, s, "w", {});
    IndexOverlooksNothing(s, "w");
    assert "d" !in Wrong(Reconciled(FieldIndex, s, "w", {}).state, "w");
  }
}
