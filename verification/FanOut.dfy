/** One job over a list of devices: its two patches a device, and every interleaving of goroutines
    that run it over disjoint slices. */
module FanOut {
  import opened Labels
  import opened Entities

  /** What the concurrent function does to a device: add the workload, or remove it unless the device is kept. */
  datatype Job =
    | Place(workload: string)
    | Evict(workload: string, keep: set<string>)

  function Without(ps: seq<Placement>, name: string): seq<Placement> {
    if ps == [] then []
    else (if ps[0].name == name then [] else [ps[0]]) + Without(ps[1..], name)
  }

  /** The status list that the job asks the API server to store, if it asks. */
  function NewStatus(job: Job, snap: Device): Option<seq<Placement>> {
    match job
    case Place(w) =>
      if exists i :: 0 <= i < |snap.workloads| && snap.workloads[i].name == w then None
      else Some(snap.workloads + [Placement(w, DEPLOYING)])
    case Evict(w, keep) =>
      if snap.name in keep then None else Some(Without(snap.workloads, w))
  }

  /** The labels that the job asks the API server to store, if it asks. */
  function NewLabels(job: Job, snap: Device): Option<map<string, string>> {
    match job
    case Place(w) =>
      if Labelled(snap, w) then None else Some(snap.labels[WorkloadLabel(w) := "true"])
    case Evict(w, keep) =>
      if snap.name in keep || snap.labels == map[] then None else Some(snap.labels - {WorkloadLabel(w)})
  }

  predicate StatusFails(job: Job, snap: Device, faults: set<Call>) {
    NewStatus(job, snap).Some? && PatchStatus(snap.name) in faults
  }

  predicate LabelFails(job: Job, snap: Device, faults: set<Call>) {
    NewLabels(job, snap).Some? && PatchLabels(snap.name) in faults
  }

  /** The stored device after the status patch computed from `snap`. */
  function AfterStatus(job: Job, snap: Device, faults: set<Call>, cur: Device): Device {
    match NewStatus(job, snap)
    case Some(ps) => if PatchStatus(snap.name) in faults || ps == snap.workloads then cur else cur.(workloads := ps)
    case None => cur
  }

  /** The stored device after the label patch computed from `snap`. */
  function AfterLabels(job: Job, snap: Device, faults: set<Call>, cur: Device): Device {
    match NewLabels(job, snap)
    case Some(ls) =>
      if PatchLabels(snap.name) in faults then cur else cur.(labels := MergePatch(cur.labels, snap.labels, ls))
    case None => cur
  }

  function AfterBoth(job: Job, snap: Device, faults: set<Call>, cur: Device): Device {
    if StatusFails(job, snap, faults) then cur
    else AfterLabels(job, snap, faults, AfterStatus(job, snap, faults, cur))
  }

  function LabelErrors(job: Job, snap: Device, faults: set<Call>): seq<Call> {
    if LabelFails(job, snap, faults) then [PatchLabels(snap.name)] else []
  }

  /** The errors that one device contributes: a failed status patch skips the label patch. */
  function DeviceErrors(job: Job, snap: Device, faults: set<Call>): seq<Call> {
    if StatusFails(job, snap, faults) then [PatchStatus(snap.name)] else LabelErrors(job, snap, faults)
  }

  // ---------- The job over a list, one device after the other ----------

  /** What the job, run over `todo` from the first device on (whose status patch is done when `half`),
      makes of one stored device. */
  function Outcome(job: Job, todo: seq<Device>, half: bool, faults: set<Call>, cur: Device): Device {
    if todo == [] then cur
    else if todo[0].name != cur.name then Outcome(job, todo[1..], false, faults, cur)
    else if half then AfterLabels(job, todo[0], faults, cur)
    else AfterBoth(job, todo[0], faults, cur)
  }

  function ErrorsOf(job: Job, todo: seq<Device>, half: bool, faults: set<Call>): seq<Call> {
    if todo == [] then []
    else (if half then LabelErrors(job, todo[0], faults) else DeviceErrors(job, todo[0], faults))
         + ErrorsOf(job, todo[1..], false, faults)
  }

  function RunAll(job: Job, todo: seq<Device>, faults: set<Call>, devices: map<string, Device>): map<string, Device> {
    map n | n in devices :: Outcome(job, todo, false, faults, devices[n])
  }

  lemma OutcomeKeepsName(job: Job, todo: seq<Device>, half: bool, faults: set<Call>, cur: Device)
    ensures Outcome(job, todo, half, faults, cur).name == cur.name
  {
  }

  lemma OutcomeElsewhere(job: Job, todo: seq<Device>, half: bool, faults: set<Call>, cur: Device)
    requires forall k :: 0 <= k < |todo| ==> todo[k].name != cur.name
    ensures Outcome(job, todo, half, faults, cur) == cur
  {
  }

  // ---------- Goroutines ----------

  /** A goroutine that still has `todo` to work on; `half` once the first device's status patch is done. */
  datatype Thread = Thread(todo: seq<Device>, half: bool, errs: seq<Call>)

  /** The goroutine's next atomic step: at most one patch of the first device. */
  function Advance(job: Job, t: Thread, faults: set<Call>): Thread
    requires t.todo != []
  {
    var d := t.todo[0];
    if t.half then Thread(t.todo[1..], false, t.errs + LabelErrors(job, d, faults))
    else if StatusFails(job, d, faults) then Thread(t.todo[1..], false, t.errs + [PatchStatus(d.name)])
    else Thread(t.todo, true, t.errs)
  }

  /** What that step makes of one stored device. */
  function Touch(job: Job, t: Thread, faults: set<Call>, cur: Device): Device
    requires t.todo != []
  {
    if cur.name != t.todo[0].name then cur
    else if t.half then AfterLabels(job, t.todo[0], faults, cur)
    else AfterStatus(job, t.todo[0], faults, cur)
  }

  function TouchAll(job: Job, t: Thread, faults: set<Call>, devices: map<string, Device>): map<string, Device>
    requires t.todo != []
  {
    map n | n in devices :: Touch(job, t, faults, devices[n])
  }

  /** What the goroutines would make of one stored device if they finished one after the other. */
  function Finish(job: Job, ts: seq<Thread>, faults: set<Call>, cur: Device): Device {
    if ts == [] then cur
    else Finish(job, ts[1..], faults, Outcome(job, ts[0].todo, ts[0].half, faults, cur))
  }

  function FinishErrors(job: Job, ts: seq<Thread>, faults: set<Call>): seq<Call> {
    if ts == [] then []
    else ts[0].errs + ErrorsOf(job, ts[0].todo, ts[0].half, faults) + FinishErrors(job, ts[1..], faults)
  }

  /** No device is waiting in two places. */
  ghost predicate Separate(ts: seq<Thread>) {
    && (forall i :: 0 <= i < |ts| ==> DistinctDevices(ts[i].todo))
    && (forall i, j, k, l :: 0 <= i < j < |ts| && 0 <= k < |ts[i].todo| && 0 <= l < |ts[j].todo|
                             ==> ts[i].todo[k].name != ts[j].todo[l].name)
  }

  function Work(ts: seq<Thread>): nat {
    if ts == [] then 0
    else 2 * |ts[0].todo| - (if ts[0].half && ts[0].todo != [] then 1 else 0) + Work(ts[1..])
  }

  lemma StepOfOne(job: Job, t: Thread, faults: set<Call>, cur: Device)
    requires t.todo != [] && DistinctDevices(t.todo)
    ensures var t' := Advance(job, t, faults);
            && Outcome(job, t'.todo, t'.half, faults, Touch(job, t, faults, cur)) == Outcome(job, t.todo, t.half, faults, cur)
            && t'.errs + ErrorsOf(job, t'.todo, t'.half, faults) == t.errs + ErrorsOf(job, t.todo, t.half, faults)
  {
    var d := t.todo[0];
    if cur.name == d.name {
      OutcomeElsewhere(job, t.todo[1..], false, faults, Touch(job, t, faults, cur));
    }
  }

  lemma AdvanceSeparate(job: Job, ts: seq<Thread>, i: nat, faults: set<Call>)
    requires Separate(ts) && i < |ts| && ts[i].todo != []
    ensures Separate(ts[i := Advance(job, ts[i], faults)])
  {
    var t' := Advance(job, ts[i], faults);
    assert t'.todo == ts[i].todo || t'.todo == ts[i].todo[1..];
  }

  /** A step of any goroutine leaves what the whole fan-out will produce unchanged. */
  lemma {:induction false} StepKeepsFinish(job: Job, ts: seq<Thread>, i: nat, faults: set<Call>, cur: Device)
    requires Separate(ts) && i < |ts| && ts[i].todo != []
    ensures Finish(job, ts[i := Advance(job, ts[i], faults)], faults, Touch(job, ts[i], faults, cur)) == Finish(job, ts, faults, cur)
    ensures FinishErrors(job, ts[i := Advance(job, ts[i], faults)], faults) == FinishErrors(job, ts, faults)
    ensures Work(ts[i := Advance(job, ts[i], faults)]) < Work(ts)
    decreases |ts|
  {
    var ts' := ts[i := Advance(job, ts[i], faults)];
    if i == 0 {
      StepOfOne(job, ts[0], faults, cur);
      assert ts'[1..] == ts[1..];
    } else {
      var next := Outcome(job, ts[0].todo, ts[0].half, faults, cur);
      OutcomeKeepsName(job, ts[0].todo, ts[0].half, faults, cur);
      assert ts'[1..] == ts[1..][i - 1 := Advance(job, ts[i], faults)];
      if cur.name == ts[i].todo[0].name {
        OutcomeElsewhere(job, ts[0].todo, ts[0].half, faults, cur);
        OutcomeElsewhere(job, ts[0].todo, ts[0].half, faults, Touch(job, ts[i], faults, cur));
      }
      StepKeepsFinish(job, ts[1..], i - 1, faults, next);
    }
  }

  /** The goroutines' error lists, concatenated in the order of the slices. */
  function Gather(ts: seq<Thread>): seq<Call> {
    if ts == [] then [] else ts[0].errs + Gather(ts[1..])
  }

  lemma FinishDone(job: Job, ts: seq<Thread>, faults: set<Call>, cur: Device)
    requires forall i :: 0 <= i < |ts| ==> ts[i].todo == []
    ensures Finish(job, ts, faults, cur) == cur
    ensures FinishErrors(job, ts, faults) == Gather(ts)
  {
  }

  function Flatten(slices: seq<seq<Device>>): seq<Device> {
    if slices == [] then [] else slices[0] + Flatten(slices[1..])
  }

  function Start(slices: seq<seq<Device>>): (ts: seq<Thread>)
    ensures |ts| == |slices| && forall i :: 0 <= i < |ts| ==> ts[i] == Thread(slices[i], false, [])
  {
    seq(|slices|, i requires 0 <= i < |slices| => Thread(slices[i], false, []))
  }

  lemma {:induction false} ErrorsOfConcat(job: Job, a: seq<Device>, b: seq<Device>, faults: set<Call>)
    ensures ErrorsOf(job, a + b, false, faults) == ErrorsOf(job, a, false, faults) + ErrorsOf(job, b, false, faults)
    decreases |a|
  {
    if a == [] {
      assert a + b == b;
    } else {
      assert (a + b)[0] == a[0];
      assert (a + b)[1..] == a[1..] + b;
      ErrorsOfConcat(job, a[1..], b, faults);
    }
  }

  lemma {:induction false} OutcomeOfConcat(job: Job, a: seq<Device>, b: seq<Device>, faults: set<Call>, cur: Device)
    requires forall i, j :: 0 <= i < |a| && 0 <= j < |b| ==> a[i].name != b[j].name
    ensures Outcome(job, a + b, false, faults, cur) == Outcome(job, b, false, faults, Outcome(job, a, false, faults, cur))
    decreases |a|
  {
    if a == [] {
      assert a + b == b;
    } else {
      assert (a + b)[0] == a[0];
      assert (a + b)[1..] == a[1..] + b;
      if a[0].name == cur.name {
        OutcomeElsewhere(job, b, false, faults, AfterBoth(job, a[0], faults, cur));
      } else {
        OutcomeOfConcat(job, a[1..], b, faults, cur);
      }
    }
  }

  lemma DistinctParts(a: seq<Device>, b: seq<Device>)
    requires DistinctDevices(a + b)
    ensures DistinctDevices(b)
    ensures forall i, j :: 0 <= i < |a| && 0 <= j < |b| ==> a[i].name != b[j].name
  {
    assert forall k :: 0 <= k < |b| ==> (a + b)[|a| + k] == b[k];
    assert forall k :: 0 <= k < |a| ==> (a + b)[k] == a[k];
  }

  /** Finishing the slices in order is running the job over the whole list. */
  lemma {:induction false} FinishOfSlices(job: Job, slices: seq<seq<Device>>, faults: set<Call>, cur: Device)
    requires DistinctDevices(Flatten(slices))
    ensures Finish(job, Start(slices), faults, cur) == Outcome(job, Flatten(slices), false, faults, cur)
    ensures FinishErrors(job, Start(slices), faults) == ErrorsOf(job, Flatten(slices), false, faults)
    decreases |slices|
  {
    if slices != [] {
      var rest := Flatten(slices[1..]);
      assert Start(slices)[1..] == Start(slices[1..]);
      DistinctParts(slices[0], rest);
      OutcomeOfConcat(job, slices[0], rest, faults, cur);
      ErrorsOfConcat(job, slices[0], rest, faults);
      FinishOfSlices(job, slices[1..], faults, Outcome(job, slices[0], false, faults, cur));
    }
  }

  lemma FlattenAt(slices: seq<seq<Device>>, i: nat, k: nat) returns (p: nat)
    requires i < |slices| && k < |slices[i]|
    ensures p < |Flatten(slices)| && Flatten(slices)[p] == slices[i][k]
    ensures p == |Flatten(slices[..i])| + k
    decreases |slices|
  {
    if i == 0 {
      p := k;
    } else {
      var q := FlattenAt(slices[1..], i - 1, k);
      assert slices[..i][1..] == slices[1..][..i - 1];
      p := |slices[0]| + q;
    }
  }

  lemma FlattenPrefix(slices: seq<seq<Device>>, i: nat, j: nat)
    requires i < j <= |slices|
    ensures |Flatten(slices[..i])| + |slices[i]| <= |Flatten(slices[..j])|
    decreases |slices|
  {
    assert slices[..j][0] == slices[0];
    assert slices[..j][1..] == slices[1..][..j - 1];
    if i > 0 {
      assert slices[..i][1..] == slices[1..][..i - 1];
      FlattenPrefix(slices[1..], i - 1, j - 1);
    }
  }

  lemma StartSeparate(slices: seq<seq<Device>>)
    requires DistinctDevices(Flatten(slices))
    ensures Separate(Start(slices))
  {
    var ts := Start(slices);
    forall i, k, l | 0 <= i < |ts| && 0 <= k < l < |ts[i].todo|
      ensures ts[i].todo[k].name != ts[i].todo[l].name
    {
      var p := FlattenAt(slices, i, k);
      var q := FlattenAt(slices, i, l);
    }
    forall i, j, k, l | 0 <= i < j < |ts| && 0 <= k < |ts[i].todo| && 0 <= l < |ts[j].todo|
      ensures ts[i].todo[k].name != ts[j].todo[l].name
    {
      var p := FlattenAt(slices, i, k);
      var q := FlattenAt(slices, j, l);
      FlattenPrefix(slices, i, j);
    }
  }

  /** Lets the goroutines of `schedule` step in that order; a finished one idles. */
  function RunSchedule(job: Job, ts: seq<Thread>, devices: map<string, Device>, schedule: seq<nat>, faults: set<Call>)
    : (r: (seq<Thread>, map<string, Device>))
    decreases |schedule|
  {
    if schedule == [] then (ts, devices)
    else
      var i := schedule[0];
      if i < |ts| && ts[i].todo != [] then
        RunSchedule(job, ts[i := Advance(job, ts[i], faults)], TouchAll(job, ts[i], faults, devices), schedule[1..], faults)
      else RunSchedule(job, ts, devices, schedule[1..], faults)
  }

  /** From threads `ts` and store `devices`, finishing produces what finishing produces from `ts0` and `devices0`. */
  ghost predicate OnCourse(job: Job, faults: set<Call>, ts: seq<Thread>, devices: map<string, Device>,
                           ts0: seq<Thread>, devices0: map<string, Device>) {
    && Separate(ts)
    && devices.Keys == devices0.Keys
    && (forall n :: n in devices ==> Finish(job, ts, faults, devices[n]) == Finish(job, ts0, faults, devices0[n]))
    && FinishErrors(job, ts, faults) == FinishErrors(job, ts0, faults)
  }

  lemma StepOnCourse(job: Job, faults: set<Call>, ts: seq<Thread>, i: nat, devices: map<string, Device>,
                     ts0: seq<Thread>, devices0: map<string, Device>)
    requires OnCourse(job, faults, ts, devices, ts0, devices0) && i < |ts| && ts[i].todo != []
    ensures OnCourse(job, faults, ts[i := Advance(job, ts[i], faults)], TouchAll(job, ts[i], faults, devices), ts0, devices0)
    ensures Work(ts[i := Advance(job, ts[i], faults)]) < Work(ts)
  {
    var ts' := ts[i := Advance(job, ts[i], faults)];
    var devices' := TouchAll(job, ts[i], faults, devices);
    forall n | n in devices ensures Finish(job, ts', faults, devices'[n]) == Finish(job, ts0, faults, devices0[n]) {
      StepKeepsFinish(job, ts, i, faults, devices[n]);
    }
    StepKeepsFinish(job, ts, i, faults, ts[i].todo[0]);
    AdvanceSeparate(job, ts, i, faults);
  }

  /** Once every goroutine is done, the store and the errors are those of the job run over the whole list. */
  lemma OnCourseDone(job: Job, faults: set<Call>, ts: seq<Thread>, devices: map<string, Device>,
                     slices: seq<seq<Device>>, devices0: map<string, Device>)
    requires OnCourse(job, faults, ts, devices, Start(slices), devices0)
    requires DistinctDevices(Flatten(slices))
    requires forall i :: 0 <= i < |ts| ==> ts[i].todo == []
    ensures devices == RunAll(job, Flatten(slices), faults, devices0)
    ensures Gather(ts) == ErrorsOf(job, Flatten(slices), false, faults)
  {
    forall n | n in devices ensures devices[n] == Outcome(job, Flatten(slices), false, faults, devices0[n]) {
      FinishDone(job, ts, faults, devices[n]);
      FinishOfSlices(job, slices, faults, devices0[n]);
    }
    var any := Device("", map[], [], false);
    FinishDone(job, ts, faults, any);
    FinishOfSlices(job, slices, faults, any);
  }

  lemma {:induction false} ScheduleOnCourse(job: Job, faults: set<Call>, ts: seq<Thread>, devices: map<string, Device>, schedule: seq<nat>,
                                            ts0: seq<Thread>, devices0: map<string, Device>)
    requires OnCourse(job, faults, ts, devices, ts0, devices0)
    ensures var (ts', devices') := RunSchedule(job, ts, devices, schedule, faults);
            OnCourse(job, faults, ts', devices', ts0, devices0)
    decreases |schedule|
  {
    if schedule != [] {
      var i := schedule[0];
      if i < |ts| && ts[i].todo != [] {
        StepOnCourse(job, faults, ts, i, devices, ts0, devices0);
        ScheduleOnCourse(job, faults, ts[i := Advance(job, ts[i], faults)], TouchAll(job, ts[i], faults, devices), schedule[1..], ts0, devices0);
      } else {
        ScheduleOnCourse(job, faults, ts, devices, schedule[1..], ts0, devices0);
      }
    }
  }

  /** Fan-out refines the loop: whatever the interleaving, and whichever patches fail, once all goroutines
      are done the store and the concatenated errors are those of the job run over the whole list. */
  lemma EveryInterleaving(job: Job, slices: seq<seq<Device>>, devices: map<string, Device>, schedule: seq<nat>, faults: set<Call>)
    requires DistinctDevices(Flatten(slices))
    requires var (ts, _) := RunSchedule(job, Start(slices), devices, schedule, faults);
             forall i :: 0 <= i < |ts| ==> ts[i].todo == []
    ensures var (ts, devices') := RunSchedule(job, Start(slices), devices, schedule, faults);
            && devices' == RunAll(job, Flatten(slices), faults, devices)
            && Gather(ts) == ErrorsOf(job, Flatten(slices), false, faults)
  {
    StartSeparate(slices);
    ScheduleOnCourse(job, faults, Start(slices), devices, schedule, Start(slices), devices);
    var (ts, devices') := RunSchedule(job, Start(slices), devices, schedule, faults);
    OnCourseDone(job, faults, ts, devices', slices, devices);
  }

  // ---------- The job on a set of stored devices ----------

  /** The job done once on each device of `names`, as if the devices did not have to be listed first. */
  function OnDevices(job: Job, names: set<string>, faults: set<Call>, devices: map<string, Device>): map<string, Device> {
    map n | n in devices :: if n in names then AfterBoth(job, devices[n], faults, devices[n]) else devices[n]
  }

  predicate JobFails(job: Job, names: set<string>, faults: set<Call>, devices: map<string, Device>) {
    exists n | n in names :: n in devices && DeviceErrors(job, devices[n], faults) != []
  }

  /** The job sends at least one patch. */
  predicate JobWrites(job: Job, names: set<string>, devices: map<string, Device>) {
    exists n | n in names :: n in devices && (NewStatus(job, devices[n]).Some? || NewLabels(job, devices[n]).Some?)
  }

  /** An exact listing, but an entry that the job keeps may be out of date. */
  ghost predicate Listing(job: Job, ds: seq<Device>, names: set<string>, devices: map<string, Device>) {
    && DistinctDevices(ds)
    && (forall k :: 0 <= k < |ds| ==>
          && ds[k].name in names && ds[k].name in devices
          && (devices[ds[k].name] == ds[k] || (job.Evict? && ds[k].name in job.keep)))
    && (forall n :: n in names ==> exists k :: 0 <= k < |ds| && ds[k].name == n)
  }

  lemma OutcomeAt(job: Job, ds: seq<Device>, k: nat, faults: set<Call>, cur: Device)
    requires DistinctDevices(ds) && k < |ds| && ds[k].name == cur.name
    ensures Outcome(job, ds, false, faults, cur) == AfterBoth(job, ds[k], faults, cur)
    decreases |ds|
  {
    if k > 0 {
      OutcomeAt(job, ds[1..], k - 1, faults, cur);
    }
  }

  lemma NoErrors(job: Job, ds: seq<Device>, faults: set<Call>)
    ensures ErrorsOf(job, ds, false, faults) == [] <==> forall k :: 0 <= k < |ds| ==> DeviceErrors(job, ds[k], faults) == []
  {
    if ds != [] {
      NoErrors(job, ds[1..], faults);
      assert forall k :: 1 <= k < |ds| ==> ds[k] == ds[1..][k - 1];
      if forall k :: 0 <= k < |ds| ==> DeviceErrors(job, ds[k], faults) == [] {
        assert DeviceErrors(job, ds[0], faults) == [];
      }
    }
  }

  /** Running over a listing is the job done on the set of listed devices, in whatever order they were listed. */
  lemma RunAllOnDevices(job: Job, ds: seq<Device>, names: set<string>, faults: set<Call>, devices: map<string, Device>)
    requires NamedByKey(devices) && Listing(job, ds, names, devices)
    ensures RunAll(job, ds, faults, devices) == OnDevices(job, names, faults, devices)
  {
    forall n | n in devices
      ensures Outcome(job, ds, false, faults, devices[n]) == OnDevices(job, names, faults, devices)[n]
    {
      if n in names {
        var k :| 0 <= k < |ds| && ds[k].name == n;
        OutcomeAt(job, ds, k, faults, devices[n]);
      } else {
        OutcomeElsewhere(job, ds, false, faults, devices[n]);
      }
    }
  }

  lemma RunAllErrors(job: Job, ds: seq<Device>, names: set<string>, faults: set<Call>, devices: map<string, Device>)
    requires NamedByKey(devices) && Listing(job, ds, names, devices)
    ensures ErrorsOf(job, ds, false, faults) == [] <==> !JobFails(job, names, faults, devices)
  {
    NoErrors(job, ds, faults);
    forall k | 0 <= k < |ds|
      ensures DeviceErrors(job, ds[k], faults) == DeviceErrors(job, devices[ds[k].name], faults)
    {
    }
    if JobFails(job, names, faults, devices) {
      var n :| n in names && n in devices && DeviceErrors(job, devices[n], faults) != [];
      var k :| 0 <= k < |ds| && ds[k].name == n;
      assert DeviceErrors(job, ds[k], faults) != [];
    }
  }

  // ---------- What the job means for a device ----------

  lemma ListedConcat(a: seq<Placement>, b: seq<Placement>, name: string)
    ensures ListedIn(a + b, name) <==> ListedIn(a, name) || ListedIn(b, name)
  {
    var c := a + b;
    if ListedIn(a, name) {
      var i :| 0 <= i < |a| && a[i].name == name;
      assert c[i].name == name;
    }
    if ListedIn(b, name) {
      var i :| 0 <= i < |b| && b[i].name == name;
      assert c[|a| + i].name == name;
    }
  }

  lemma ListedOne(p: Placement, name: string)
    ensures ListedIn([p], name) <==> p.name == name
  {
    assert [p][0] == p;
  }

  lemma {:induction false} WithoutKeepsOthers(ps: seq<Placement>, name: string, other: string)
    ensures ListedIn(Without(ps, name), other) <==> other != name && ListedIn(ps, other)
    decreases |ps|
  {
    if ps != [] {
      WithoutKeepsOthers(ps[1..], name, other);
      assert ps == [ps[0]] + ps[1..];
      ListedConcat([ps[0]], ps[1..], other);
      ListedOne(ps[0], other);
      var rest := Without(ps[1..], name);
      ListedConcat([ps[0]], rest, other);
      assert [] + rest == rest;
      assert ListedIn(ps, other) <==> ps[0].name == other || ListedIn(ps[1..], other);
    }
  }

  lemma {:induction false} WithoutKeepsDistinct(ps: seq<Placement>, name: string)
    requires DistinctNames(ps)
    ensures DistinctNames(Without(ps, name))
    decreases |ps|
  {
    if ps != [] {
      WithoutKeepsDistinct(ps[1..], name);
      assert !ListedIn(ps[1..], ps[0].name);
      WithoutKeepsOthers(ps[1..], name, ps[0].name);
    }
  }

  /** Exactly the entries of others remain, as they were and in their order. */
  lemma {:induction false} WithoutExactly(ps: seq<Placement>, name: string) returns (positions: seq<nat>)
    ensures |positions| == |Without(ps, name)| && ReworkedAt(ps, Without(ps, name), positions)
    ensures forall p :: p in Without(ps, name) <==> p in ps && p.name != name
    decreases |ps|
  {
    if ps == [] {
      positions := [];
    } else {
      var kept := Without(ps[1..], name);
      var rest := WithoutExactly(ps[1..], name);
      positions := ReworkedCons(ps, kept, rest, ps[0].name != name);
      assert forall p :: p in ps <==> p == ps[0] || p in ps[1..];
    }
  }

  lemma ReworkedAppend(ps: seq<Placement>, name: string)
    requires !ListedIn(ps, name)
    ensures Reworked(ps, ps + [Placement(name, "Deploying")])
  {
    var positions: seq<nat> := seq(|ps|, i => i);
    assert ReworkedAt(ps, ps + [Placement(name, "Deploying")], positions);
  }

  /** What placing a workload leaves of a device and reports, exactly: for each failure of the two patches. */
  lemma PlaceExactly(w: string, d: Device, faults: set<Call>)
    ensures var statusFails := !Lists(d, w) && PatchStatus(d.name) in faults;
      var labelFails := !statusFails && ("workload/" + w) !in d.labels && PatchLabels(d.name) in faults;
      && AfterBoth(Place(w), d, faults, d) == d.(
           workloads := if Lists(d, w) || statusFails then d.workloads else d.workloads + [Placement(w, "Deploying")],
           labels := if ("workload/" + w) in d.labels || statusFails || labelFails then d.labels
                     else d.labels[("workload/" + w) := "true"])
      && DeviceErrors(Place(w), d, faults)
         == if statusFails then [PatchStatus(d.name)] else if labelFails then [PatchLabels(d.name)] else []
  {
    if NewLabels(Place(w), d).Some? {
      MergePatchOfCurrent(d.labels, NewLabels(Place(w), d).value);
    }
  }

  /** What evicting one leaves and reports, exactly. */
  lemma EvictExactly(w: string, keep: set<string>, d: Device, faults: set<Call>)
    ensures var kept := d.name in keep;
      var statusFails := !kept && PatchStatus(d.name) in faults;
      var labelFails := !kept && !statusFails && d.labels != map[] && PatchLabels(d.name) in faults;
      && AfterBoth(Evict(w, keep), d, faults, d) == d.(
           workloads := if kept || statusFails then d.workloads else Without(d.workloads, w),
           labels := if kept || statusFails || labelFails then d.labels else d.labels - {"workload/" + w})
      && DeviceErrors(Evict(w, keep), d, faults)
         == if statusFails then [PatchStatus(d.name)] else if labelFails then [PatchLabels(d.name)] else []
  {
    if NewLabels(Evict(w, keep), d).Some? {
      MergePatchOfCurrent(d.labels, NewLabels(Evict(w, keep), d).value);
    }
  }

  lemma AppendReworks(ps: seq<Placement>, after: seq<Placement>, w: string)
    requires after == ps || (!ListedIn(ps, w) && after == ps + [Placement(w, "Deploying")])
    ensures Reworked(ps, after)
    ensures forall p: Placement :: p.name != w ==> (p in after <==> p in ps)
  {
    if after == ps {
      ReworkedSame(ps);
    } else {
      ReworkedAppend(ps, w);
    }
  }

  lemma PlaceReworks(w: string, d: Device, faults: set<Call>)
    ensures Reworked(d.workloads, AfterBoth(Place(w), d, faults, d).workloads)
    ensures forall p: Placement :: p.name != w ==> (p in AfterBoth(Place(w), d, faults, d).workloads <==> p in d.workloads)
  {
    PlaceExactly(w, d, faults);
    AppendReworks(d.workloads, AfterBoth(Place(w), d, faults, d).workloads, w);
  }

  lemma EvictReworks(w: string, keep: set<string>, d: Device, faults: set<Call>)
    ensures Reworked(d.workloads, AfterBoth(Evict(w, keep), d, faults, d).workloads)
    ensures forall p: Placement :: p.name != w ==> (p in AfterBoth(Evict(w, keep), d, faults, d).workloads <==> p in d.workloads)
  {
    EvictExactly(w, keep, d, faults);
    ReworkedSame(d.workloads);
    var positions := WithoutExactly(d.workloads, w);
  }

  /** Entries of other workloads are neither lost nor changed nor moved, whatever fails. */
  lemma JobKeepsOtherEntries(job: Job, d: Device, faults: set<Call>)
    ensures var d' := AfterBoth(job, d, faults, d);
      && Reworked(d.workloads, d'.workloads)
      && forall p: Placement :: p.name != job.workload ==> (p in d'.workloads <==> p in d.workloads)
  {
    match job {
      case Place(w) => PlaceReworks(w, d, faults);
      case Evict(w, keep) => EvictReworks(w, keep, d, faults);
    }
  }

  lemma AppendListed(ps: seq<Placement>, p: Placement, other: string)
    ensures ListedIn(ps + [p], other) <==> ListedIn(ps, other) || other == p.name
  {
    ListedConcat(ps, [p], other);
    ListedOne(p, other);
  }

  lemma StatusTouchesOneWorkload(job: Job, d: Device, faults: set<Call>, other: string)
    ensures var d' := AfterStatus(job, d, faults, d);
            && d' == d.(workloads := d'.workloads)
            && (DistinctNames(d.workloads) ==> DistinctNames(d'.workloads))
            && (other != job.workload ==> (Lists(d', other) <==> Lists(d, other)))
  {
    if job.Evict? {
      WithoutKeepsOthers(d.workloads, job.workload, other);
      if DistinctNames(d.workloads) {
        WithoutKeepsDistinct(d.workloads, job.workload);
      }
    } else {
      AppendListed(d.workloads, Placement(job.workload, DEPLOYING), other);
    }
  }

  lemma LabelsTouchOneWorkload(job: Job, snap: Device, faults: set<Call>, d: Device, other: string)
    requires d.labels == snap.labels
    ensures var d' := AfterLabels(job, snap, faults, d);
            && d' == d.(labels := d'.labels)
            && SameUserLabels(d.labels, d'.labels)
            && (other != job.workload ==> (Labelled(d', other) <==> Labelled(d, other)))
  {
    WorkloadLabelsDistinct(job.workload, other);
    if NewLabels(job, snap).Some? {
      MergePatchOfCurrent(snap.labels, NewLabels(job, snap).value);
    }
  }

  /** The job reaches only entries and labels of its own workload. */
  lemma JobTouchesOneWorkload(job: Job, d: Device, faults: set<Call>, other: string)
    ensures var d' := AfterBoth(job, d, faults, d);
            && d'.name == d.name && d'.deleting == d.deleting
            && SameUserLabels(d.labels, d'.labels)
            && (DistinctNames(d.workloads) ==> DistinctNames(d'.workloads))
            && (other != job.workload ==> (Lists(d', other) <==> Lists(d, other)) && (Labelled(d', other) <==> Labelled(d, other)))
  {
    StatusTouchesOneWorkload(job, d, faults, other);
    LabelsTouchOneWorkload(job, d, faults, AfterStatus(job, d, faults, d), other);
  }

  /** Both patches write status before label, so a failed one leaves no entry that lacks a label
      unless the job was adding it, and no failure undoes what was right. */
  lemma JobOnItsWorkload(job: Job, d: Device, faults: set<Call>)
    ensures var d' := AfterBoth(job, d, faults, d);
            var w := job.workload;
            match job
            case Place(_) =>
              && (Lists(d, w) ==> Lists(d', w))
              && (Labelled(d, w) ==> Labelled(d', w))
              && (DeviceErrors(job, d, faults) == [] ==> Lists(d', w) && Labelled(d', w))
            case Evict(_, keep) =>
              if d.name in keep then d' == d
              else
                && (Lists(d', w) ==> Lists(d, w) && (Labelled(d', w) <==> Labelled(d, w)))
                && (Labelled(d', w) ==> Labelled(d, w))
                && (DeviceErrors(job, d, faults) == [] ==> !Lists(d', w) && !Labelled(d', w))
  {
    var w := job.workload;
    if NewLabels(job, d).Some? {
      MergePatchOfCurrent(d.labels, NewLabels(job, d).value);
    }
    if job.Evict? {
      WithoutKeepsOthers(d.workloads, w, w);
    } else {
      AppendListed(d.workloads, Placement(w, DEPLOYING), w);
    }
  }
}
