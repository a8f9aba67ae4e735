/** The reconciler that works workload by workload (controllers/edgeworkload_controller.go). */
module WorkloadReconciler {
  import opened Labels
  import opened Entities
  import opened Index
  import opened FanOut
  import opened ClusterStore
  import opened Finalizers

  const FINALIZER := "yggdrasil-device-reference-finalizer"

  /** How ListForWorkload finds the devices that hold a workload: by the index registered for it
      (cmd/manager/main.go:300), or by a label named like that index, as the repository's query has it
      (internal/common/repository/edgedevice/edgedevice.go:100). */
  datatype Lookup = FieldIndex | LabelQuery

  predicate Holds(lookup: Lookup, d: Device, name: string) {
    match lookup
    case FieldIndex => name in DeviceIndexKeys(d)
    case LabelQuery => DEVICE_BY_WORKLOAD_INDEX_KEY in d.labels && d.labels[DEVICE_BY_WORKLOAD_INDEX_KEY] == name
  }

  /** A holder is found by its placement label, or by a label that nobody in the operator writes. */
  lemma HoldsExactly(d: Device, name: string)
    ensures Holds(FieldIndex, d, name) <==> ("workload/" + name) in d.labels
    ensures Holds(LabelQuery, d, name) <==> "device-by-workload" in d.labels && d.labels["device-by-workload"] == name
  {
    DeviceIndexIsLabel(d, name);
  }

  function Holders(lookup: Lookup, s: State, name: string): set<string> {
    set n | n in s.devices && Holds(lookup, s.devices[n], name)
  }

  function Matching(s: State, w: Workload): set<string> {
    set n | n in s.devices && Selects(w, s.devices[n])
  }

  predicate MatchingFails(w: Workload, faults: set<Call>) {
    if w.device != "" then ListMatching in faults
    else w.selector.Some? && (!SelectorValid(w.selector.value) || ListMatching in faults)
  }

  /** What one reconcile leaves: the store, whether it returned no error, whether it asked to be called again,
      and whether it sent a patch. */
  datatype Result = Result(state: State, ok: bool, requeue: bool, wrote: bool)

  function WithWorkload(s: State, from: Workload, to: Workload): State
    requires from.name in s.workloads
  {
    s.(workloads := PatchedWorkloads(s.workloads, from, to))
  }

  /** The tail of a reconcile of a workload marked for deletion. RemoveFinalizer reports no error. */
  function FinalizeRemoval(s: State, w: Workload, names: set<string>, faults: set<Call>): Result
    requires w.name in s.workloads
  {
    var job := Evict(w.name, {});
    var cleaned := s.(devices := OnDevices(job, names, faults, s.devices));
    if JobFails(job, names, faults, s.devices) then Result(cleaned, false, true, true)
    else if RemoveFinalizer in faults then Result(cleaned, true, false, true)
    else Result(WithWorkload(cleaned, w, w.(finalizers := FinalizersLess(w.finalizers, FINALIZER))), true, false, true)
  }

  /** The tail of a reconcile of a live workload: place on the matching devices, then evict from the other holders. */
  function PlaceAndEvict(s: State, name: string, matching: set<string>, holders: set<string>, faults: set<Call>): Result {
    var place, evict := Place(name), Evict(name, matching);
    var placed := OnDevices(place, matching, faults, s.devices);
    var wrote := JobWrites(place, matching, s.devices);
    if JobFails(place, matching, faults, s.devices) then Result(s.(devices := placed), false, true, wrote)
    else
      var fails := JobFails(evict, holders, faults, placed);
      Result(s.(devices := OnDevices(evict, holders, faults, placed)), !fails, fails,
             wrote || JobWrites(evict, holders, placed))
  }

  /** One reconcile of the workload `name`. */
  function Reconciled(lookup: Lookup, s: State, name: string, faults: set<Call>): (r: Result)
    requires name in s.workloads ==> s.workloads[name].name == name
    ensures name in r.state.workloads ==> r.state.workloads[name].name == name
  {
    if ReadWorkload in faults then Result(s, false, true, false)
    else if name !in s.workloads then Result(s, true, false, false)
    else
      var w := s.workloads[name];
      if !w.deleting && FINALIZER !in w.finalizers then
        if PatchWorkload in faults then Result(s, false, true, true)
        else Result(WithWorkload(s, w, w.(finalizers := [FINALIZER])), true, true, true)
      else if !w.deleting && SelectorLabels(w) != w.labels then
        if PatchWorkload in faults then Result(s, false, true, true)
        else Result(WithWorkload(s, w, w.(labels := SelectorLabels(w))), true, false, true)
      else if ListHolders in faults || MatchingFails(w, faults) then Result(s, false, true, false)
      else if !w.deleting then PlaceAndEvict(s, name, Matching(s, w), Holders(lookup, s, name), faults)
      else if FINALIZER !in w.finalizers then Result(s, true, false, false)
      else FinalizeRemoval(s, w, Matching(s, w) + Holders(lookup, s, name), faults)
  }

  // ---------- Lists of devices ----------

  /** An ordered partition of `ds` into at most `k` non-empty slices of nearly equal size, larger ones first. */
  ghost predicate BalancedPartition(slices: seq<seq<Device>>, ds: seq<Device>, k: nat) {
    && Flatten(slices) == ds
    && |slices| == (if |ds| < k then |ds| else k)
    && (forall i :: 0 <= i < |slices| ==> slices[i] != [])
    && (forall i, j :: 0 <= i < j < |slices| ==> |slices[j]| <= |slices[i]| <= |slices[j]| + 1)
  }

  lemma FlattenSnoc(slices: seq<seq<Device>>, slice: seq<Device>)
    ensures Flatten(slices + [slice]) == Flatten(slices) + slice
  {
    if slices != [] {
      FlattenSnoc(slices[1..], slice);
      assert (slices + [slice])[1..] == slices[1..] + [slice];
    }
  }

  /** What `r` more slices take without their residue. */
  ghost function Times(r: nat, n: nat): nat {
    if r == 0 then 0 else n + Times(r - 1, n)
  }

  lemma TimesIsProduct(r: nat, n: nat)
    ensures Times(r, n) == r * n
    ensures 0 < n ==> r <= Times(r, n)
  {
    if r > 0 {
      TimesIsProduct(r - 1, n);
      assert r * n == (r - 1) * n + n;
    }
  }

  lemma TimesZero(r: nat)
    ensures Times(r, 0) == 0
  {
  }

  /** The slices so far: larger ones first, and only larger ones while there is residue left. */
  ghost predicate Sizes(slices: seq<seq<Device>>, size: nat, residue: nat) {
    && (forall i :: 0 <= i < |slices| ==> slices[i] != [] && size <= |slices[i]| <= size + 1)
    && (residue > 0 ==> forall i :: 0 <= i < |slices| ==> |slices[i]| == size + 1)
    && (forall i, j :: 0 <= i < j < |slices| ==> |slices[j]| <= |slices[i]|)
  }

  lemma SizesSnoc(slices: seq<seq<Device>>, slice: seq<Device>, size: nat, residue: nat)
    requires Sizes(slices, size, residue) && slice != []
    requires |slice| == size + (if residue > 0 then 1 else 0)
    ensures Sizes(slices + [slice], size, if residue > 0 then residue - 1 else 0)
  {
  }

  /** The loop of splitEdgeDevices; slicing panics when a slice would end before it starts. */
  method TakeSlices(edgeDevices: seq<Device>, ghost splitSize: nat, splitLen: int, residue: nat)
    returns (panicked: bool, result: seq<seq<Device>>)
    requires splitLen >= 0 ==> |edgeDevices| == Times(splitSize, splitLen) + residue && residue < splitSize
    requires splitLen < 0 ==> edgeDevices != []
    ensures panicked <==> splitLen < 0
    ensures !panicked ==> Flatten(result) == edgeDevices && Sizes(result, splitLen, 0)
    ensures !panicked ==> |result| == if splitLen == 0 then residue else splitSize
  {
    var sLen := |edgeDevices|;
    result := [];
    var residueLen := residue;
    ghost var coming := splitSize;
    TimesZero(splitSize);
    var newSliceLen := 0;
    var usedLen := 0;
    while usedLen < sLen
      invariant 0 <= usedLen <= sLen && 0 <= residueLen
      invariant splitLen < 0 ==> usedLen == 0
      invariant splitLen >= 0 ==> coming == splitSize - |result| && residueLen <= coming
      invariant splitLen >= 0 ==> sLen - usedLen == Times(coming, splitLen) + residueLen
      invariant splitLen == 0 ==> |result| == residue - residueLen && Times(coming, splitLen) == 0
      invariant splitLen >= 0 ==> Flatten(result) == edgeDevices[..usedLen] && Sizes(result, splitLen, residueLen)
      decreases sLen - usedLen, residueLen
    {
      ghost var residueBefore := residueLen;
      var residueExtra := 0;
      if residueLen > 0 {
        residueExtra := 1;
        residueLen := residueLen - 1;
      }
      newSliceLen := splitLen + residueExtra;
      if newSliceLen < 0 {
        return true, [];
      }
      var newSlice := edgeDevices[usedLen..usedLen + newSliceLen];
      if splitLen >= 0 {
        coming := coming - 1;
        FlattenSnoc(result, newSlice);
        SizesSnoc(result, newSlice, splitLen, residueBefore);
        assert edgeDevices[..usedLen] + newSlice == edgeDevices[..usedLen + newSliceLen];
      }
      result := result + [newSlice];
      usedLen := usedLen + newSliceLen;
    }
    assert edgeDevices[..sLen] == edgeDevices;
    panicked := false;
  }

  const INT_LIMIT := 0x8000_0000_0000_0000
  const UINT_LIMIT := 0x1_0000_0000_0000_0000

  /** Go's division of a length, which truncates toward zero. */
  function Quotient(len: nat, divisor: int): int
    requires divisor != 0
  {
    if divisor > 0 then len / divisor else -(len / -divisor)
  }

  /** The size is a negative `int`, and the list is at least as long as that number is below zero. */
  predicate SplitPanics(splitSize: nat, len: nat) {
    INT_LIMIT <= splitSize && UINT_LIMIT <= splitSize + len
  }

  lemma PositiveSize(len: nat, k: nat)
    requires k > 0
    ensures 0 <= Quotient(len, k) && 0 <= len - Quotient(len, k) * k < k
    ensures len == Times(k, Quotient(len, k)) + (len - Quotient(len, k) * k)
    ensures Quotient(len, k) == 0 <==> len < k
  {
    TimesIsProduct(k, len / k);
  }

  lemma NegativeSize(len: nat, m: int)
    requires m > 0
    ensures Quotient(len, -m) < 0 <==> m <= len
    ensures Quotient(len, -m) <= 0
    ensures Quotient(len, -m) * -m == (len / m) * m
    ensures 0 <= len - Quotient(len, -m) * -m
    ensures len < m ==> len - Quotient(len, -m) * -m == len
  {
    if len < m {
      assert len / m == 0;
    } else {
      assert len / m >= 1;
    }
  }

  /** Any `uint` is a split size. From 2^63 on it becomes a negative `int`, and the function panics if and only if the
      list is as long as that number is below zero; otherwise the size of the slices is right all the same. */
  method SplitEdgeDevices(edgeDevices: seq<Device>, splitSize: nat) returns (panicked: bool, result: seq<seq<Device>>)
    requires splitSize < UINT_LIMIT
    ensures panicked <==> SplitPanics(splitSize, |edgeDevices|)
    ensures !panicked ==> if splitSize == 0 then result == [] else BalancedPartition(result, edgeDevices, splitSize)
  {
    if splitSize == 0 {
      return false, [];
    }
    var intX := if splitSize < INT_LIMIT then splitSize else splitSize - UINT_LIMIT;
    var sLen := |edgeDevices|;
    var splitLen := Quotient(sLen, intX);
    var residueLen := sLen - splitLen * intX;
    if intX > 0 {
      PositiveSize(sLen, intX);
    } else {
      NegativeSize(sLen, -intX);
      TimesZero(splitSize);
    }
    panicked, result := TakeSlices(edgeDevices, splitSize, splitLen, residueLen);
  }

  lemma ListedExactly(ds: seq<Device>, names: set<string>, devices: map<string, Device>)
    requires ExactListing(ds, names, devices) && NamedByKey(devices)
    ensures forall n :: n in devices ==> (devices[n] in ds <==> n in names)
  {
    forall n | n in devices ensures devices[n] in ds <==> n in names {
      if n in names {
        var k :| 0 <= k < |ds| && ds[k].name == n;
        assert ds[k] == devices[n];
      }
    }
  }

  /** A listing is no longer than the store. */
  lemma ListingFits(ds: seq<Device>, names: set<string>, devices: map<string, Device>)
    requires ExactListing(ds, names, devices)
    ensures |ds| <= |devices|
  {
    if ds != [] {
      var front, last := ds[..|ds| - 1], ds[|ds| - 1];
      var rest := devices - {last.name};
      forall k | 0 <= k < |front| ensures front[k].name in rest && rest[front[k].name] == front[k] {
        assert front[k] == ds[k];
      }
      assert ExactListing(front, names - {last.name}, rest) by {
        forall n | n in names - {last.name} ensures exists k :: 0 <= k < |front| && front[k].name == n {
          var k :| 0 <= k < |ds| && ds[k].name == n;
          assert front[k].name == n;
        }
      }
      ListingFits(front, names - {last.name}, rest);
      assert devices == rest[last.name := devices[last.name]];
    }
  }

  ghost function NamesOf(ds: seq<Device>): set<string> {
    set d | d in ds :: d.name
  }

  function NotNamed(ds: seq<Device>, names: set<string>): seq<Device> {
    if ds == [] then []
    else NotNamed(ds[..|ds| - 1], names) + (if ds[|ds| - 1].name in names then [] else [ds[|ds| - 1]])
  }

  /** merge: the first list, then the devices of the second that the first does not name. */
  method Merge(edgeDevices1: seq<Device>, edgeDevices2: seq<Device>) returns (merged: seq<Device>)
    ensures merged == edgeDevices1 + NotNamed(edgeDevices2, NamesOf(edgeDevices1))
  {
    var mergedMap: set<string> := {};
    merged := [];
    for i := 0 to |edgeDevices1|
      invariant merged == edgeDevices1[..i]
      invariant mergedMap == NamesOf(edgeDevices1[..i])
    {
      assert edgeDevices1[..i + 1] == edgeDevices1[..i] + [edgeDevices1[i]];
      mergedMap := mergedMap + {edgeDevices1[i].name};
      merged := merged + [edgeDevices1[i]];
    }
    assert edgeDevices1[..|edgeDevices1|] == edgeDevices1;
    for i := 0 to |edgeDevices2|
      invariant merged == edgeDevices1 + NotNamed(edgeDevices2[..i], mergedMap)
    {
      var device := edgeDevices2[i];
      assert edgeDevices2[..i + 1][..i] == edgeDevices2[..i];
      if device.name !in mergedMap {
        merged := merged + [device];
      }
    }
    assert edgeDevices2[..|edgeDevices2|] == edgeDevices2;
  }

  lemma NotNamedElements(ds: seq<Device>, names: set<string>)
    ensures forall d :: d in NotNamed(ds, names) <==> d in ds && d.name !in names
    ensures DistinctDevices(ds) ==> DistinctDevices(NotNamed(ds, names))
  {
    if ds != [] {
      var front, last := ds[..|ds| - 1], ds[|ds| - 1];
      NotNamedElements(front, names);
      assert forall d :: d in ds <==> d in front || d == last;
      var rest := NotNamed(front, names);
      if DistinctDevices(ds) {
        forall k | 0 <= k < |rest| ensures rest[k].name != last.name {
          assert rest[k] in front;
        }
      }
    }
  }

  /** Merging two listings of stored devices lists the union, each device once. */
  lemma MergeLists(ds1: seq<Device>, ds2: seq<Device>, names1: set<string>, names2: set<string>, devices: map<string, Device>)
    requires ExactListing(ds1, names1, devices) && ExactListing(ds2, names2, devices)
    ensures ExactListing(ds1 + NotNamed(ds2, NamesOf(ds1)), names1 + names2, devices)
  {
    var extra := NotNamed(ds2, NamesOf(ds1));
    NotNamedElements(ds2, NamesOf(ds1));
    var merged := ds1 + extra;
    forall n | n in names1 + names2 ensures exists k :: 0 <= k < |merged| && merged[k].name == n {
      if n in NamesOf(ds1) {
        var d :| d in ds1 && d.name == n;
        var k :| 0 <= k < |ds1| && ds1[k] == d;
        assert merged[k].name == n;
      } else {
        assert forall k :: 0 <= k < |ds1| ==> ds1[k] in ds1;
        assert n in names2;
        var k :| 0 <= k < |ds2| && ds2[k].name == n;
        assert ds2[k] in extra;
        var m :| 0 <= m < |extra| && extra[m] == ds2[k];
        assert merged[|ds1| + m].name == n;
      }
    }
    forall k | 0 <= k < |extra| ensures extra[k].name !in NamesOf(ds1) && extra[k] in ds2 {
      assert extra[k] in extra;
    }
    forall i, j | 0 <= i < j < |merged| ensures merged[i].name != merged[j].name {
      if i < |ds1| <= j {
        assert ds1[i] in ds1;
        assert merged[j] == extra[j - |ds1|];
      }
    }
  }

  // ---------- The reconciler ----------

  lemma {:induction false} WithoutSnoc(ps: seq<Placement>, p: Placement, name: string)
    ensures Without(ps + [p], name) == Without(ps, name) + (if p.name == name then [] else [p])
    decreases |ps|
  {
    if ps == [] {
      assert ps + [p] == [p];
      assert Without([p], name) == (if p.name == name then [] else [p]) + Without([], name) by {
        assert [p][1..] == [];
      }
    } else {
      var rest, last := ps[1..], if p.name == name then [] else [p];
      var first := if ps[0].name == name then [] else [ps[0]];
      calc {
        Without(ps + [p], name);
        { assert (ps + [p])[1..] == rest + [p]; }
        first + Without(rest + [p], name);
        { WithoutSnoc(rest, p, name); }
        first + (Without(rest, name) + last);
        (first + Without(rest, name)) + last;
        Without(ps, name) + last;
      }
    }
  }

  method HasWorkload(d: Device, name: string) returns (found: bool)
    ensures found <==> Lists(d, name)
  {
    for i := 0 to |d.workloads|
      invariant forall k :: 0 <= k < i ==> d.workloads[k].name != name
    {
      if d.workloads[i].name == name {
        return true;
      }
    }
    return false;
  }

  method WorkloadsWithout(workloads: seq<Placement>, name: string) returns (newWorkloads: seq<Placement>)
    ensures newWorkloads == Without(workloads, name)
  {
    newWorkloads := [];
    for i := 0 to |workloads|
      invariant newWorkloads == Without(workloads[..i], name)
    {
      assert workloads[..i + 1] == workloads[..i] + [workloads[i]];
      WithoutSnoc(workloads[..i], workloads[i], name);
      if workloads[i].name != name {
        newWorkloads := newWorkloads + [workloads[i]];
      }
    }
    assert workloads[..|workloads|] == workloads;
  }

  /** The job sends a patch for this device. */
  predicate Sends(job: Job, d: Device) {
    NewStatus(job, d).Some? || NewLabels(job, d).Some?
  }

  /** No device of the list needs a patch. */
  ghost predicate NothingToSend(job: Job, ds: seq<Device>) {
    forall k :: 0 <= k < |ds| ==> !Sends(job, ds[k])
  }

  lemma EvictSends(name: string, keep: set<string>, d: Device)
    ensures Sends(Evict(name, keep), d) <==> d.name !in keep
  {
  }

  lemma NothingToSendSnoc(job: Job, ds: seq<Device>, i: nat)
    requires i < |ds|
    ensures NothingToSend(job, ds[..i + 1]) <==> NothingToSend(job, ds[..i]) && !Sends(job, ds[i])
  {
    assert ds[..i + 1] == ds[..i] + [ds[i]];
    if NothingToSend(job, ds[..i + 1]) {
      forall k | 0 <= k < i ensures !Sends(job, ds[..i][k]) {
        assert ds[..i + 1][k] == ds[..i][k];
      }
      assert ds[..i + 1][i] == ds[i];
    }
  }

  /** The goroutine has not come to the device's patches yet. */
  ghost predicate StillToSend(job: Job, t: Thread, d: Device) {
    d in t.todo && (t.half && t.todo[0] == d ==> NewLabels(job, d).Some?)
  }

  ghost predicate Unsent(job: Job, ts: seq<Thread>, ds: seq<Device>) {
    forall k :: 0 <= k < |ds| && Sends(job, ds[k]) ==> exists i :: 0 <= i < |ts| && StillToSend(job, ts[i], ds[k])
  }

  lemma SliceOf(slices: seq<seq<Device>>, k: nat) returns (i: nat)
    requires k < |Flatten(slices)|
    ensures i < |slices| && Flatten(slices)[k] in slices[i]
  {
    if k < |slices[0]| {
      i := 0;
    } else {
      var j := SliceOf(slices[1..], k - |slices[0]|);
      i := j + 1;
    }
  }

  lemma StartUnsent(job: Job, slices: seq<seq<Device>>)
    ensures Unsent(job, Start(slices), Flatten(slices))
  {
    var ts, ds := Start(slices), Flatten(slices);
    forall k | 0 <= k < |ds| && Sends(job, ds[k]) ensures exists i :: 0 <= i < |ts| && StillToSend(job, ts[i], ds[k]) {
      var i := SliceOf(slices, k);
      assert StillToSend(job, ts[i], ds[k]);
    }
  }

  /** A step that sends nothing leaves everything unsent. */
  lemma StepUnsent(job: Job, ts: seq<Thread>, i: nat, ds: seq<Device>, faults: set<Call>)
    requires Unsent(job, ts, ds) && i < |ts| && ts[i].todo != []
    requires if ts[i].half then NewLabels(job, ts[i].todo[0]).None? else NewStatus(job, ts[i].todo[0]).None?
    ensures Unsent(job, ts[i := Advance(job, ts[i], faults)], ds)
  {
    var ts' := ts[i := Advance(job, ts[i], faults)];
    forall k | 0 <= k < |ds| && Sends(job, ds[k]) ensures exists j :: 0 <= j < |ts'| && StillToSend(job, ts'[j], ds[k]) {
      var j :| 0 <= j < |ts| && StillToSend(job, ts[j], ds[k]);
      assert StillToSend(job, ts'[j], ds[k]);
    }
  }

  lemma FailureSends(job: Job, names: set<string>, faults: set<Call>, devices: map<string, Device>)
    requires JobFails(job, names, faults, devices)
    ensures JobWrites(job, names, devices)
  {
    var n :| n in names && n in devices && DeviceErrors(job, devices[n], faults) != [];
    assert NewStatus(job, devices[n]).Some? || NewLabels(job, devices[n]).Some?;
  }

  lemma ListingSends(job: Job, ds: seq<Device>, names: set<string>, devices: map<string, Device>)
    requires Listing(job, ds, names, devices) && NamedByKey(devices)
    ensures NothingToSend(job, ds) <==> !JobWrites(job, names, devices)
  {
    forall k | 0 <= k < |ds| ensures Sends(job, ds[k]) == Sends(job, devices[ds[k].name]) {
    }
    if n :| n in names && n in devices && Sends(job, devices[n]) {
      var k :| 0 <= k < |ds| && ds[k].name == n;
      assert Sends(job, ds[k]);
    }
  }

  /** Running the job over one more device. */
  lemma RunSnoc(job: Job, ds: seq<Device>, i: nat, faults: set<Call>, devices: map<string, Device>)
    requires i < |ds| && DistinctDevices(ds) && NamedByKey(devices) && ds[i].name in devices
    ensures var before := RunAll(job, ds[..i], faults, devices);
            && NamedByKey(before)
            && RunAll(job, ds[..i + 1], faults, devices)
               == before[ds[i].name := AfterBoth(job, ds[i], faults, before[ds[i].name])]
    ensures ErrorsOf(job, ds[..i + 1], false, faults) == ErrorsOf(job, ds[..i], false, faults) + DeviceErrors(job, ds[i], faults)
  {
    var before := RunAll(job, ds[..i], faults, devices);
    assert ds[..i + 1] == ds[..i] + [ds[i]];
    forall n | n in devices
      ensures before[n].name == n
      ensures Outcome(job, ds[..i + 1], false, faults, devices[n])
           == if n == ds[i].name then AfterBoth(job, ds[i], faults, before[n]) else before[n]
    {
      OutcomeKeepsName(job, ds[..i], false, faults, devices[n]);
      OutcomeOfConcat(job, ds[..i], [ds[i]], faults, devices[n]);
      assert [ds[i]][1..] == [];
    }
    ErrorsOfConcat(job, ds[..i], [ds[i]], faults);
    assert [ds[i]][1..] == [];
  }

  /** Every device a goroutine still has to visit is one of `ds`. */
  ghost predicate InList(ts: seq<Thread>, ds: seq<Device>) {
    forall i, k :: 0 <= i < |ts| && 0 <= k < |ts[i].todo| ==> ts[i].todo[k] in ds
  }

  lemma StartInList(slices: seq<seq<Device>>)
    ensures InList(Start(slices), Flatten(slices))
  {
    forall i, k | 0 <= i < |slices| && 0 <= k < |slices[i]| ensures slices[i][k] in Flatten(slices) {
      var p := FlattenAt(slices, i, k);
    }
  }

  lemma StepInList(job: Job, ts: seq<Thread>, i: nat, ds: seq<Device>, faults: set<Call>)
    requires InList(ts, ds) && i < |ts| && ts[i].todo != []
    ensures ts[i].todo[0] in ds
    ensures InList(ts[i := Advance(job, ts[i], faults)], ds)
  {
    var t' := Advance(job, ts[i], faults);
    assert t'.todo == ts[i].todo || t'.todo == ts[i].todo[1..];
  }

  lemma TouchKeepsNames(job: Job, t: Thread, faults: set<Call>, devices: map<string, Device>)
    requires NamedByKey(devices) && t.todo != []
    ensures NamedByKey(TouchAll(job, t, faults, devices))
  {
  }

  method CollectErrors(returnValues: seq<Thread>) returns (result: seq<Call>)
    ensures result == Gather(returnValues)
  {
    result := [];
    for i := 0 to |returnValues|
      invariant Gather(returnValues) == result + Gather(returnValues[i..])
    {
      assert returnValues[i..][1..] == returnValues[i + 1..];
      result := result + returnValues[i].errs;
    }
  }

  lemma KeepsMatching(ds: seq<Device>, names: set<string>, devices: map<string, Device>)
    requires ExactListing(ds, names, devices)
    ensures (set d | d in ds :: d.name) == names
  {
    forall n | n in names ensures exists d :: d in ds && d.name == n {
      var k :| 0 <= k < |ds| && ds[k].name == n;
      assert ds[k] in ds;
    }
  }

  lemma PlacedElsewhere(name: string, names: set<string>, faults: set<Call>, devices: map<string, Device>)
    requires NamedByKey(devices)
    ensures var devices' := OnDevices(Place(name), names, faults, devices);
            NamedByKey(devices') && forall n :: n in devices && n !in names ==> devices'[n] == devices[n]
  {
    forall n | n in devices ensures OnDevices(Place(name), names, faults, devices)[n].name == n {
      JobTouchesOneWorkload(Place(name), devices[n], faults, name);
    }
  }

  class EdgeWorkloadReconciler {
    const cluster: Cluster
    const lookup: Lookup
    const concurrency: nat

    constructor (cluster: Cluster, lookup: Lookup, concurrency: nat)
      requires 0 < concurrency < UINT_LIMIT
      ensures this.cluster == cluster && this.lookup == lookup && this.concurrency == concurrency
    {
      this.cluster, this.lookup, this.concurrency := cluster, lookup, concurrency;
    }

    method RemoveWorkloadFromDevice(name: string, edgeDevice: Device, faults: set<Call>, ghost job: Job) returns (errs: seq<Call>)
      requires job.Evict? && job.workload == name && edgeDevice.name !in job.keep
      requires edgeDevice.name in cluster.devices && NamedByKey(cluster.devices)
      modifies cluster
      ensures cluster.devices == old(cluster.devices)[edgeDevice.name := AfterBoth(job, edgeDevice, faults, old(cluster.devices)[edgeDevice.name])]
      ensures cluster.workloads == old(cluster.workloads) && cluster.writes > old(cluster.writes)
      ensures errs == DeviceErrors(job, edgeDevice, faults)
    {
      var newWorkloads := WorkloadsWithout(edgeDevice.workloads, name);
      var ok := cluster.PatchStatus(edgeDevice, newWorkloads, faults);
      if !ok {
        return [PatchStatus(edgeDevice.name)];
      }
      if edgeDevice.labels != map[] {
        ok := cluster.PatchLabels(edgeDevice, edgeDevice.labels - {WorkloadLabel(name)}, faults);
        if !ok {
          return [PatchLabels(edgeDevice.name)];
        }
      }
      return [];
    }

    /** removeWorkloadFromDevices, and the concurrent function of removeWorkloadFromNonMatchingDevices,
        which skips the devices of `keep`. */
    method RemoveWorkloadFromDevices(name: string, keep: set<string>, input: seq<Device>, faults: set<Call>) returns (errs: seq<Call>)
      requires NamedByKey(cluster.devices) && DistinctDevices(input)
      requires forall k :: 0 <= k < |input| ==> input[k].name in cluster.devices
      modifies cluster
      ensures cluster.devices == RunAll(Evict(name, keep), input, faults, old(cluster.devices))
      ensures cluster.workloads == old(cluster.workloads)
      ensures errs == ErrorsOf(Evict(name, keep), input, false, faults)
      ensures old(cluster.writes) <= cluster.writes
      ensures cluster.writes == old(cluster.writes) <==> NothingToSend(Evict(name, keep), input)
    {
      ghost var job := Evict(name, keep);
      errs := [];
      for i := 0 to |input|
        invariant cluster.devices == RunAll(job, input[..i], faults, old(cluster.devices))
        invariant cluster.workloads == old(cluster.workloads)
        invariant errs == ErrorsOf(job, input[..i], false, faults)
        invariant old(cluster.writes) <= cluster.writes
        invariant cluster.writes == old(cluster.writes) <==> NothingToSend(job, input[..i])
      {
        RunSnoc(job, input, i, faults, old(cluster.devices));
        NothingToSendSnoc(job, input, i);
        var device := input[i];
        EvictSends(name, keep, device);
        if device.name !in keep {
          var err := RemoveWorkloadFromDevice(name, device, faults, job);
          errs := errs + err;
        }
      }
      assert input[..|input|] == input;
    }

    method AddWorkloadToDevice(name: string, edgeDevice: Device, faults: set<Call>) returns (errs: seq<Call>)
      requires edgeDevice.name in cluster.devices && NamedByKey(cluster.devices)
      modifies cluster
      ensures cluster.devices == old(cluster.devices)[edgeDevice.name := AfterBoth(Place(name), edgeDevice, faults, old(cluster.devices)[edgeDevice.name])]
      ensures cluster.workloads == old(cluster.workloads)
      ensures errs == DeviceErrors(Place(name), edgeDevice, faults)
      ensures old(cluster.writes) <= cluster.writes
      ensures cluster.writes == old(cluster.writes) <==> !Sends(Place(name), edgeDevice)
    {
      var has := HasWorkload(edgeDevice, name);
      if !has {
        var ok := cluster.PatchStatus(edgeDevice, edgeDevice.workloads + [Placement(name, DEPLOYING)], faults);
        if !ok {
          return [PatchStatus(edgeDevice.name)];
        }
      }
      if WorkloadLabel(name) !in edgeDevice.labels {
        var ok := cluster.PatchLabels(edgeDevice, edgeDevice.labels[WorkloadLabel(name) := "true"], faults);
        if !ok {
          return [PatchLabels(edgeDevice.name)];
        }
      }
      return [];
    }

    /** The concurrent function of addWorkloadsToDevices. */
    method AddWorkloadsToDevices(name: string, input: seq<Device>, faults: set<Call>) returns (errs: seq<Call>)
      requires NamedByKey(cluster.devices) && DistinctDevices(input)
      requires forall k :: 0 <= k < |input| ==> input[k].name in cluster.devices
      modifies cluster
      ensures cluster.devices == RunAll(Place(name), input, faults, old(cluster.devices))
      ensures cluster.workloads == old(cluster.workloads)
      ensures errs == ErrorsOf(Place(name), input, false, faults)
      ensures old(cluster.writes) <= cluster.writes
      ensures cluster.writes == old(cluster.writes) <==> NothingToSend(Place(name), input)
    {
      ghost var job := Place(name);
      errs := [];
      for i := 0 to |input|
        invariant cluster.devices == RunAll(job, input[..i], faults, old(cluster.devices))
        invariant cluster.workloads == old(cluster.workloads)
        invariant errs == ErrorsOf(job, input[..i], false, faults)
        invariant old(cluster.writes) <= cluster.writes
        invariant cluster.writes == old(cluster.writes) <==> NothingToSend(job, input[..i])
      {
        RunSnoc(job, input, i, faults, old(cluster.devices));
        NothingToSendSnoc(job, input, i);
        var err := AddWorkloadToDevice(name, input[i], faults);
        errs := errs + err;
      }
      assert input[..|input|] == input;
    }

    /** The concurrent function as executeConcurrent calls it directly. */
    method RunSlice(job: Job, input: seq<Device>, faults: set<Call>) returns (errs: seq<Call>)
      requires NamedByKey(cluster.devices) && DistinctDevices(input)
      requires forall k :: 0 <= k < |input| ==> input[k].name in cluster.devices
      modifies cluster
      ensures cluster.devices == RunAll(job, input, faults, old(cluster.devices))
      ensures cluster.workloads == old(cluster.workloads)
      ensures errs == ErrorsOf(job, input, false, faults)
      ensures old(cluster.writes) <= cluster.writes
      ensures cluster.writes == old(cluster.writes) <==> NothingToSend(job, input)
    {
      match job {
        case Place(name) => errs := AddWorkloadsToDevices(name, input, faults);
        case Evict(name, keep) => errs := RemoveWorkloadFromDevices(name, keep, input, faults);
      }
    }

    /** One atomic step of a goroutine: at most one patch. */
    method StepGoroutine(job: Job, t: Thread, faults: set<Call>) returns (t': Thread)
      requires t.todo != [] && t.todo[0].name in cluster.devices && NamedByKey(cluster.devices)
      modifies cluster
      ensures t' == Advance(job, t, faults)
      ensures cluster.devices == TouchAll(job, t, faults, old(cluster.devices))
      ensures cluster.workloads == old(cluster.workloads)
      ensures old(cluster.writes) <= cluster.writes
      ensures cluster.writes == old(cluster.writes) <==>
              if t.half then NewLabels(job, t.todo[0]).None? else NewStatus(job, t.todo[0]).None?
    {
      var d, rest := t.todo[0], t.todo[1..];
      if t.half {
        t' := Thread(rest, false, t.errs);
        var labels := NewLabels(job, d);
        if labels.Some? {
          var ok := cluster.PatchLabels(d, labels.value, faults);
          if !ok {
            t' := Thread(rest, false, t.errs + [PatchLabels(d.name)]);
          }
        }
      } else {
        t' := Thread(t.todo, true, t.errs);
        var status := NewStatus(job, d);
        if status.Some? {
          var ok := cluster.PatchStatus(d, status.value, faults);
          if !ok {
            t' := Thread(rest, false, t.errs + [PatchStatus(d.name)]);
          }
        }
      }
    }

    /** One goroutine a slice, stepping in any order until all are done. */
    method RunGoroutines(job: Job, inputs: seq<seq<Device>>, faults: set<Call>) returns (result: seq<Call>)
      requires NamedByKey(cluster.devices) && DistinctDevices(Flatten(inputs))
      requires forall k :: 0 <= k < |Flatten(inputs)| ==> Flatten(inputs)[k].name in cluster.devices
      modifies cluster
      ensures cluster.devices == RunAll(job, Flatten(inputs), faults, old(cluster.devices))
      ensures cluster.workloads == old(cluster.workloads)
      ensures result == ErrorsOf(job, Flatten(inputs), false, faults)
      ensures old(cluster.writes) <= cluster.writes
      ensures cluster.writes == old(cluster.writes) <==> NothingToSend(job, Flatten(inputs))
    {
      var threads := Start(inputs);
      StartSeparate(inputs);
      StartInList(inputs);
      StartUnsent(job, inputs);
      while exists i :: 0 <= i < |threads| && threads[i].todo != []
        invariant OnCourse(job, faults, threads, cluster.devices, Start(inputs), old(cluster.devices))
        invariant NamedByKey(cluster.devices) && InList(threads, Flatten(inputs))
        invariant cluster.workloads == old(cluster.workloads)
        invariant old(cluster.writes) <= cluster.writes
        invariant NothingToSend(job, Flatten(inputs)) ==> cluster.writes == old(cluster.writes)
        invariant cluster.writes == old(cluster.writes) ==> Unsent(job, threads, Flatten(inputs))
        decreases Work(threads)
      {
        var i :| 0 <= i < |threads| && threads[i].todo != [];
        StepInList(job, threads, i, Flatten(inputs), faults);
        TouchKeepsNames(job, threads[i], faults, cluster.devices);
        StepOnCourse(job, faults, threads, i, cluster.devices, Start(inputs), old(cluster.devices));
        ghost var sends := if threads[i].half then NewLabels(job, threads[i].todo[0]).Some?
                           else NewStatus(job, threads[i].todo[0]).Some?;
        if !sends && cluster.writes == old(cluster.writes) {
          StepUnsent(job, threads, i, Flatten(inputs), faults);
        }
        var t := StepGoroutine(job, threads[i], faults);
        threads := threads[i := t];
      }
      OnCourseDone(job, faults, threads, cluster.devices, inputs, old(cluster.devices));
      result := CollectErrors(threads);
    }

    /** Starts one goroutine a slice and lets them step in any order; whichever the order and whichever the failing
        patches, the store and the returned errors are those of the sequential run. A concurrency of
        zero runs nothing; one for which splitting panics does so before anything is sent. */
    method ExecuteConcurrent(job: Job, edgeDevices: seq<Device>, faults: set<Call>)
      returns (panicked: bool, result: seq<Call>)
      requires concurrency < UINT_LIMIT
      requires NamedByKey(cluster.devices) && DistinctDevices(edgeDevices)
      requires forall k :: 0 <= k < |edgeDevices| ==> edgeDevices[k].name in cluster.devices
      modifies cluster
      ensures panicked <==> SplitPanics(concurrency, |edgeDevices|)
      ensures cluster.devices == if panicked || concurrency == 0 then old(cluster.devices)
                                 else RunAll(job, edgeDevices, faults, old(cluster.devices))
      ensures cluster.workloads == old(cluster.workloads)
      ensures result == if panicked || concurrency == 0 then [] else ErrorsOf(job, edgeDevices, false, faults)
      ensures old(cluster.writes) <= cluster.writes
      ensures cluster.writes == old(cluster.writes) <==> panicked || concurrency == 0 || NothingToSend(job, edgeDevices)
    {
      if |edgeDevices| == 0 || concurrency == 0 {
        return false, [];
      }
      var inputs;
      panicked, inputs := SplitEdgeDevices(edgeDevices, concurrency);
      if panicked {
        return true, [];
      }
      result := RunGoroutines(job, inputs, faults);
    }

    method ExecuteJob(job: Job, edgeDevices: seq<Device>, faults: set<Call>) returns (errs: seq<Call>)
      requires 0 < concurrency < UINT_LIMIT && !SplitPanics(concurrency, |edgeDevices|)
      requires NamedByKey(cluster.devices) && DistinctDevices(edgeDevices)
      requires forall k :: 0 <= k < |edgeDevices| ==> edgeDevices[k].name in cluster.devices
      modifies cluster
      ensures cluster.devices == RunAll(job, edgeDevices, faults, old(cluster.devices))
      ensures cluster.workloads == old(cluster.workloads)
      ensures errs == ErrorsOf(job, edgeDevices, false, faults)
      ensures old(cluster.writes) <= cluster.writes
      ensures cluster.writes == old(cluster.writes) <==> NothingToSend(job, edgeDevices)
    {
      if concurrency == 1 {
        errs := RunSlice(job, edgeDevices, faults);
      } else {
        var _, result := ExecuteConcurrent(job, edgeDevices, faults);
        errs := result;
      }
    }

    /** Runs the job over a listing of the devices of `names`. */
    method RunOnDevices(job: Job, ghost names: set<string>, edgeDevices: seq<Device>, faults: set<Call>) returns (failed: bool)
      requires 0 < concurrency < UINT_LIMIT && !SplitPanics(concurrency, |edgeDevices|)
      requires NamedByKey(cluster.devices) && Listing(job, edgeDevices, names, cluster.devices)
      modifies cluster
      ensures cluster.devices == OnDevices(job, names, faults, old(cluster.devices))
      ensures cluster.workloads == old(cluster.workloads)
      ensures failed == JobFails(job, names, faults, old(cluster.devices))
      ensures old(cluster.writes) <= cluster.writes
      ensures cluster.writes == old(cluster.writes) <==> !JobWrites(job, names, old(cluster.devices))
    {
      RunAllOnDevices(job, edgeDevices, names, faults, cluster.devices);
      RunAllErrors(job, edgeDevices, names, faults, cluster.devices);
      ListingSends(job, edgeDevices, names, cluster.devices);
      var errs := ExecuteJob(job, edgeDevices, faults);
      failed := errs != [];
    }

    /** getMatchingEdgeDevices; a missing device is an empty answer. */
    method GetMatchingEdgeDevices(w: Workload, faults: set<Call>) returns (ok: bool, edgeDevices: seq<Device>)
      requires NamedByKey(cluster.devices)
      ensures ok == !MatchingFails(w, faults)
      ensures ok ==> ExactListing(edgeDevices, Matching(cluster.Snapshot(), w), cluster.devices)
      ensures w.device != "" ==> (ok <==> ListMatching !in faults)
      ensures w.device != "" && ok ==>
        edgeDevices == if w.device in cluster.devices then [cluster.devices[w.device]] else []
      ensures w.device == "" && w.selector.None? ==> ok && edgeDevices == []
      ensures w.device == "" && w.selector.Some? ==>
        (ok <==> ListMatching !in faults && !exists r :: r in w.selector.value.matchExpressions && Malformed(r))
      ensures w.device == "" && w.selector.Some? && ok ==> forall n :: n in cluster.devices ==>
        var s, labels := w.selector.value, cluster.devices[n].labels;
        (cluster.devices[n] in edgeDevices <==>
          && (forall k :: k in s.matchLabels ==> k in labels && labels[k] == s.matchLabels[k])
          && (forall r :: r in s.matchExpressions ==> RequirementMatches(r, labels)))
    {
      ok, edgeDevices := true, [];
      if w.device != "" {
        if ListMatching in faults {
          return false, [];
        }
        if w.device in cluster.devices {
          edgeDevices := [cluster.devices[w.device]];
          assert edgeDevices[0].name == w.device;
        }
      } else if w.selector.Some? {
        InvalidExactly(w.selector.value);
        if !SelectorValid(w.selector.value) || ListMatching in faults {
          return false, [];
        }
        edgeDevices := cluster.List(set n | n in cluster.devices && SelectorMatches(w.selector.value, cluster.devices[n].labels));
        ghost var names := set n | n in cluster.devices && SelectorMatches(w.selector.value, cluster.devices[n].labels);
        assert Matching(cluster.Snapshot(), w) == names;
        ListedExactly(edgeDevices, names, cluster.devices);
      }
    }

    /** The deletion branch: every matching or labelled device loses the workload, then the finalizer goes. */
    method FinalizeRemovalOf(w: Workload, edgeDevices: seq<Device>, labelledDevices: seq<Device>,
                             ghost matching: set<string>, ghost holders: set<string>, faults: set<Call>)
      returns (ok: bool, requeue: bool)
      requires 0 < concurrency < UINT_LIMIT && !SplitPanics(concurrency, |cluster.devices|)
      requires NamedByKey(cluster.devices) && w.name in cluster.workloads
      requires ExactListing(edgeDevices, matching, cluster.devices) && ExactListing(labelledDevices, holders, cluster.devices)
      modifies cluster
      ensures var r := FinalizeRemoval(old(cluster.Snapshot()), w, matching + holders, faults);
              cluster.Snapshot() == r.state && ok == r.ok && requeue == r.requeue
      ensures old(cluster.writes) < cluster.writes
    {
      var merged := Merge(edgeDevices, labelledDevices);
      MergeLists(edgeDevices, labelledDevices, matching, holders, cluster.devices);
      ListingFits(merged, matching + holders, cluster.devices);
      var failed := RunOnDevices(Evict(w.name, {}), matching + holders, merged, faults);
      if failed {
        FailureSends(Evict(w.name, {}), matching + holders, faults, old(cluster.devices));
        return false, true;
      }
      var finalizers := FinalizersWithout(w.finalizers, FINALIZER);
      var _ := cluster.PatchWorkload(w, w.(finalizers := finalizers), RemoveFinalizer in faults);
      return true, false;
    }

    /** addWorkloadsToDevices, then removeWorkloadFromNonMatchingDevices on the list read before. */
    method PlaceAndEvictOn(name: string, edgeDevices: seq<Device>, labelledDevices: seq<Device>,
                           ghost matching: set<string>, ghost holders: set<string>, faults: set<Call>)
      returns (ok: bool, requeue: bool)
      requires 0 < concurrency < UINT_LIMIT && !SplitPanics(concurrency, |cluster.devices|)
      requires NamedByKey(cluster.devices)
      requires ExactListing(edgeDevices, matching, cluster.devices) && ExactListing(labelledDevices, holders, cluster.devices)
      modifies cluster
      ensures var r := PlaceAndEvict(old(cluster.Snapshot()), name, matching, holders, faults);
              && cluster.Snapshot() == r.state && ok == r.ok && requeue == r.requeue
              && (cluster.writes > old(cluster.writes) <==> r.wrote)
      ensures old(cluster.writes) <= cluster.writes
    {
      ListingFits(edgeDevices, matching, cluster.devices);
      ListingFits(labelledDevices, holders, cluster.devices);
      var failed := RunOnDevices(Place(name), matching, edgeDevices, faults);
      if failed {
        return false, true;
      }
      var matchingDevicesMap := set d | d in edgeDevices :: d.name;
      KeepsMatching(edgeDevices, matching, old(cluster.devices));
      PlacedElsewhere(name, matching, faults, old(cluster.devices));
      failed := RunOnDevices(Evict(name, matchingDevicesMap), holders, labelledDevices, faults);
      return !failed, failed;
    }

    /** One reconcile; the concurrency is not so close to the limit of `uint` that splitting all devices would panic. */
    method Reconcile(name: string, faults: set<Call>) returns (ok: bool, requeue: bool)
      requires 0 < concurrency < UINT_LIMIT && !SplitPanics(concurrency, |cluster.devices|)
      requires NamedByKey(cluster.devices)
      requires name in cluster.workloads ==> cluster.workloads[name].name == name
      modifies cluster
      ensures var r := Reconciled(lookup, old(cluster.Snapshot()), name, faults);
              && cluster.Snapshot() == r.state && ok == r.ok && requeue == r.requeue
              && (cluster.writes > old(cluster.writes) <==> r.wrote)
      ensures old(cluster.writes) <= cluster.writes
    {
      if ReadWorkload in faults {
        return false, true;
      }
      if name !in cluster.workloads {
        return true, false;
      }
      var w := cluster.workloads[name];
      var finalized := HasFinalizer(w.finalizers, FINALIZER);
      if !w.deleting && !finalized {
        var done := cluster.PatchWorkload(w, w.(finalizers := [FINALIZER]), PatchWorkload in faults);
        return done, true;
      }
      if !w.deleting {
        var labels := UpdateSelectorLabels(w);
        if labels != w.labels {
          var done := cluster.PatchWorkload(w, w.(labels := labels), PatchWorkload in faults);
          return done, !done;
        }
      }
      ghost var before := cluster.Snapshot();
      if ListHolders in faults {
        return false, true;
      }
      var labelledDevices := cluster.List(Holders(lookup, cluster.Snapshot(), name));
      var found, edgeDevices := GetMatchingEdgeDevices(w, faults);
      if !found {
        return false, true;
      }
      ghost var matching, holders := Matching(before, w), Holders(lookup, before, name);
      if !w.deleting {
        ok, requeue := PlaceAndEvictOn(name, edgeDevices, labelledDevices, matching, holders, faults);
        return;
      }
      if finalized {
        ok, requeue := FinalizeRemovalOf(w, edgeDevices, labelledDevices, matching, holders, faults);
        return;
      }
      return true, false;
    }
  }
}
