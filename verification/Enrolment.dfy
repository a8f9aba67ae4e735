/** The life of a device from the request to enrol it to its deletion (the signed-request reconciler, the deletion path
    of the device reconciler, and the backend's Enrol), over every run of them and of the users' own changes. */
module Enrolment {
  import opened Finalizers

  const DEVICE_FINALIZER := "device-finalizer"
  const PENDING := "pending"
  const APPROVED := "approved"
  const REQUEST_LABEL := "edgedeviceSignedRequest"
  const SET_LABEL := "flotta/member-of"

  datatype Key = Key(name: string, namespace: string)

  datatype Condition = Condition(kind: string, status: string)

  /** A stored EdgeDeviceSignedRequest. */
  datatype Request = Request(approved: bool, targetNamespace: string, targetSet: string, conditions: seq<Condition>)

  /** A stored EdgeDevice, as far as enrolment goes. */
  datatype Device = Device(labels: map<string, string>, finalizers: seq<string>, deleting: bool)

  datatype State = State(requests: map<Key, Request>, devices: map<Key, Device>)

  /** The calls that can fail; a set of them is the environment's choice for one reconcile. */
  datatype Call = ReadRequest | ReadDevice | ReadTargetDevice | PatchSpec | PatchConditions | CreateDevice | CreateRequest
    | DeleteRequest | PatchFinalizers

  /** What a reconcile leaves, and what it returns. */
  datatype Outcome = Outcome(state: State, requeue: bool, failed: bool)

  // ---------- Specification of the operations ----------

  function Marked(conditions: seq<Condition>, kind: string): seq<Condition> {
    seq(|conditions|, i requires 0 <= i < |conditions| => conditions[i].(status := "false")) + [Condition(kind, "true")]
  }

  predicate IsPendingSpec(conditions: seq<Condition>) {
    conditions == [] || exists c | c in conditions :: c == Condition(PENDING, "True")
  }

  function NewDevice(r: Request): Device {
    Device(map[REQUEST_LABEL := "true"] + (if r.targetSet == "" then map[] else map[SET_LABEL := r.targetSet]),
           [DEVICE_FINALIZER], false)
  }

  function MarkedIn(s: State, key: Key, kind: string, faults: set<Call>): Outcome
    requires key in s.requests
  {
    var r := s.requests[key];
    if PatchConditions in faults then Outcome(s, true, true)
    else Outcome(s.(requests := s.requests[key := r.(conditions := Marked(r.conditions, kind))]), false, false)
  }

  /** One reconcile of a request. Whatever the error of reading the device, it goes on to create one. */
  function RequestReconciled(autoApproval: bool, s: State, key: Key, faults: set<Call>): Outcome {
    if ReadRequest in faults then Outcome(s, true, true)
    else if key !in s.requests then Outcome(s, false, false)
    else
      var r := s.requests[key];
      if !r.approved then
        if autoApproval then
          if PatchSpec in faults then Outcome(s, true, true)
          else Outcome(s.(requests := s.requests[key := r.(approved := true)]), true, false)
        else if r.conditions != [] && IsPendingSpec(r.conditions) then Outcome(s, false, false)
        else MarkedIn(s, key, PENDING, faults)
      else
        var device := Key(key.name, r.targetNamespace);
        if device in s.devices then
          if ReadDevice in faults then Outcome(s, true, true) else MarkedIn(s, key, APPROVED, faults)
        else if CreateDevice in faults then Outcome(s, true, true)
        else MarkedIn(s.(devices := s.devices[device := NewDevice(r)]), key, APPROVED, faults)
  }

  function WithFinalizers(devices: map<Key, Device>, key: Key, finalizers: seq<string>): map<Key, Device>
    requires key in devices
  {
    if devices[key].deleting && finalizers == [] then devices - {key}
    else devices[key := devices[key].(finalizers := finalizers)]
  }

  /** One reconcile of a device marked for deletion; a failure to take the finalizer off is not reported. */
  function DeletionReconciled(initialNamespace: string, s: State, key: Key, faults: set<Call>): Outcome
    requires key in s.devices && s.devices[key].deleting
  {
    var request := Key(key.name, initialNamespace);
    var d := s.devices[key];
    if ReadRequest in faults || (request in s.requests && DeleteRequest in faults) then Outcome(s, true, true)
    else
      var devices :=
        if DEVICE_FINALIZER !in d.finalizers || PatchFinalizers in faults then s.devices
        else WithFinalizers(s.devices, key, FinalizersLess(d.finalizers, DEVICE_FINALIZER));
      Outcome(State(s.requests - {request}, devices), false, false)
  }

  function DeviceReconciled(initialNamespace: string, s: State, key: Key, faults: set<Call>): Outcome {
    if ReadDevice in faults then Outcome(s, true, true)
    else if key !in s.devices || !s.devices[key].deleting then Outcome(s, false, false)
    else DeletionReconciled(initialNamespace, s, key, faults)
  }

  function Enrolled(initialNamespace: string, s: State, key: Key, faults: set<Call>): State {
    var request := Key(key.name, initialNamespace);
    if (ReadDevice !in faults && key in s.devices) || request in s.requests || CreateRequest in faults then s
    else s.(requests := s.requests[request := Request(false, key.namespace, "", [])])
  }

  // ---------- The API server and its clients ----------

  /** A request as it was read: the reconciler rewrites its conditions before it sends them back. */
  class SignedRequest {
    const key: Key
    const spec: Request
    var conditions: seq<Condition>

    constructor (key: Key, r: Request)
      ensures this.key == key && spec == r && conditions == r.conditions
    {
      this.key, spec, conditions := key, r, r.conditions;
    }
  }

  class ApiServer {
    var requests: map<Key, Request>
    var devices: map<Key, Device>

    constructor (s: State)
      ensures Snapshot() == s
    {
      requests, devices := s.requests, s.devices;
    }

    function Snapshot(): State
      reads this
    {
      State(requests, devices)
    }

    method PatchConditions(edsr: SignedRequest, fails: bool) returns (ok: bool)
      requires edsr.key in requests
      modifies this`requests
      ensures ok == !fails
      ensures requests == if ok then old(requests)[edsr.key := old(requests)[edsr.key].(conditions := edsr.conditions)]
                          else old(requests)
    {
      ok := !fails;
      if ok {
        requests := requests[edsr.key := requests[edsr.key].(conditions := edsr.conditions)];
      }
    }

    /** Patches the specification of a request as it was read; its status is not part of that patch. */
    method Approve(edsr: SignedRequest, fails: bool) returns (ok: bool)
      requires edsr.key in requests
      modifies this`requests
      ensures ok == !fails
      ensures requests == if ok then old(requests)[edsr.key := old(requests)[edsr.key].(approved := true)] else old(requests)
    {
      ok := !fails;
      if ok {
        requests := requests[edsr.key := requests[edsr.key].(approved := true)];
      }
    }

    method DeleteRequest(key: Key, fails: bool) returns (ok: bool)
      modifies this`requests
      ensures ok == !fails
      ensures requests == if ok then old(requests) - {key} else old(requests)
    {
      ok := !fails;
      if ok {
        requests := requests - {key};
      }
    }

    /** Creating never replaces: it fails when the device exists. */
    method CreateDevice(key: Key, device: Device, fails: bool) returns (ok: bool)
      modifies this`devices
      ensures ok <==> !fails && key !in old(devices)
      ensures devices == if ok then old(devices)[key := device] else old(devices)
    {
      ok := !fails && key !in devices;
      if ok {
        devices := devices[key := device];
      }
    }

    method CreateRequest(key: Key, request: Request, fails: bool) returns (ok: bool)
      modifies this`requests
      ensures ok <==> !fails && key !in old(requests)
      ensures requests == if ok then old(requests)[key := request] else old(requests)
    {
      ok := !fails && key !in requests;
      if ok {
        requests := requests[key := request];
      }
    }

    /** The repository's RemoveFinalizer: it reports no error, whether or not its patch went through. */
    method RemoveFinalizer(key: Key, finalizer: string, fails: bool)
      requires key in devices
      modifies this`devices
      ensures devices == if fails then old(devices)
                         else WithFinalizers(old(devices), key, FinalizersLess(old(devices)[key].finalizers, finalizer))
    {
      var finalizers := FinalizersWithout(devices[key].finalizers, finalizer);
      if !fails {
        devices := WithFinalizers(devices, key, finalizers);
      }
    }
  }

  class SignedRequestReconciler {
    const server: ApiServer
    const autoApproval: bool

    constructor (server: ApiServer, autoApproval: bool)
      ensures this.server == server && this.autoApproval == autoApproval
    {
      this.server, this.autoApproval := server, autoApproval;
    }

    method MarkStatus(edsr: SignedRequest, kind: string, faults: set<Call>) returns (failed: bool)
      requires edsr.key in server.requests && server.requests[edsr.key].conditions == edsr.conditions
      modifies edsr`conditions, server`requests
      ensures failed == MarkedIn(old(server.Snapshot()), edsr.key, kind, faults).failed
      ensures server.Snapshot() == MarkedIn(old(server.Snapshot()), edsr.key, kind, faults).state
    {
      var i := 0;
      while i < |edsr.conditions|
        invariant 0 <= i <= |edsr.conditions| == |old(edsr.conditions)|
        invariant forall k :: 0 <= k < i ==> edsr.conditions[k] == old(edsr.conditions)[k].(status := "false")
        invariant forall k :: i <= k < |edsr.conditions| ==> edsr.conditions[k] == old(edsr.conditions)[k]
        invariant server.Snapshot() == old(server.Snapshot())
      {
        edsr.conditions := edsr.conditions[i := edsr.conditions[i].(status := "false")];
        i := i + 1;
      }
      edsr.conditions := edsr.conditions + [Condition(kind, "true")];
      assert edsr.conditions == Marked(old(edsr.conditions), kind);
      var ok := server.PatchConditions(edsr, Call.PatchConditions in faults);
      failed := !ok;
    }

    method IsPending(edsr: SignedRequest) returns (pending: bool)
      ensures pending <==> IsPendingSpec(edsr.conditions)
    {
      if |edsr.conditions| == 0 {
        return true;
      }
      for i := 0 to |edsr.conditions|
        invariant forall k :: 0 <= k < i ==> edsr.conditions[k] != Condition(PENDING, "True")
      {
        if edsr.conditions[i].status == "True" && edsr.conditions[i].kind == PENDING {
          assert Condition(PENDING, "True") in edsr.conditions by {
            assert edsr.conditions[i] == Condition(PENDING, "True");
          }
          assert exists c | c in edsr.conditions :: c == Condition(PENDING, "True");
          return true;
        }
      }
      return false;
    }

    method Reconcile(key: Key, faults: set<Call>) returns (requeue: bool, failed: bool)
      modifies server
      ensures Outcome(server.Snapshot(), requeue, failed)
           == RequestReconciled(autoApproval, old(server.Snapshot()), key, faults)
    {
      if ReadRequest in faults {
        return true, true;
      }
      if key !in server.requests {
        return false, false;
      }
      var edsr := new SignedRequest(key, server.requests[key]);
      if autoApproval && !edsr.spec.approved {
        var approved := server.Approve(edsr, PatchSpec in faults);
        return true, !approved;
      }
      if !edsr.spec.approved {
        var pending := IsPending(edsr);
        if pending && |edsr.conditions| > 0 {
          return false, false;
        }
        failed := MarkStatus(edsr, PENDING, faults);
        return failed, failed;
      }
      var deviceKey := Key(key.name, edsr.spec.targetNamespace);
      if ReadDevice !in faults && deviceKey in server.devices {
        failed := MarkStatus(edsr, APPROVED, faults);
        return failed, failed;
      }
      var labels := map[REQUEST_LABEL := "true"];
      if edsr.spec.targetSet != "" {
        labels := labels[SET_LABEL := edsr.spec.targetSet];
      }
      var device := Device(labels, [DEVICE_FINALIZER], false);
      assert device == NewDevice(edsr.spec);
      var created := server.CreateDevice(deviceKey, device, Call.CreateDevice in faults);
      if !created {
        return true, true;
      }
      failed := MarkStatus(edsr, APPROVED, faults);
      return failed, failed;
    }
  }

  class EdgeDeviceReconciler {
    const server: ApiServer
    const initialDeviceNamespace: string

    constructor (server: ApiServer, initialDeviceNamespace: string)
      ensures this.server == server && this.initialDeviceNamespace == initialDeviceNamespace
    {
      this.server, this.initialDeviceNamespace := server, initialDeviceNamespace;
    }

    /** Deletes the request of the device's name in the initial namespace, if there is one. */
    method RemoveRelatedEDSR(key: Key, faults: set<Call>) returns (failed: bool)
      modifies server`requests
      ensures var request := Key(key.name, initialDeviceNamespace);
        && failed == (ReadRequest in faults || (request in old(server.requests) && DeleteRequest in faults))
        && server.requests == if failed then old(server.requests) else old(server.requests) - {request}
    {
      var request := Key(key.name, initialDeviceNamespace);
      if ReadRequest in faults {
        return true;
      }
      if request !in server.requests {
        assert server.requests - {request} == server.requests;
        return false;
      }
      var deleted := server.DeleteRequest(request, Call.DeleteRequest in faults);
      return !deleted;
    }

    method Reconcile(key: Key, faults: set<Call>) returns (requeue: bool, failed: bool)
      modifies server
      ensures Outcome(server.Snapshot(), requeue, failed)
           == DeviceReconciled(initialDeviceNamespace, old(server.Snapshot()), key, faults)
    {
      if ReadDevice in faults {
        return true, true;
      }
      if key !in server.devices || !server.devices[key].deleting {
        return false, false;
      }
      failed := RemoveRelatedEDSR(key, faults);
      if failed {
        return true, true;
      }
      var finalized := HasFinalizer(server.devices[key].finalizers, DEVICE_FINALIZER);
      if finalized {
        server.RemoveFinalizer(key, DEVICE_FINALIZER, PatchFinalizers in faults);
      }
      return false, false;
    }
  }

  class Backend {
    const server: ApiServer
    const initialNamespace: string

    constructor (server: ApiServer, initialNamespace: string)
      ensures this.server == server && this.initialNamespace == initialNamespace
    {
      this.server, this.initialNamespace := server, initialNamespace;
    }

    method Enrol(key: Key, faults: set<Call>) returns (enrolled: bool, failed: bool)
      modifies server`requests
      ensures enrolled <==>
        || (ReadDevice !in faults && key in server.devices)
        || (ReadRequest !in faults && ReadTargetDevice !in faults && Key(key.name, initialNamespace) in old(server.requests)
            && var target := old(server.requests)[Key(key.name, initialNamespace)].targetNamespace;
               target != key.namespace && Key(key.name, target) in server.devices)
      ensures server.Snapshot() == Enrolled(initialNamespace, old(server.Snapshot()), key, faults)
      ensures var request, was := Key(key.name, initialNamespace), old(server.requests);
        var creates := (ReadDevice in faults || key !in server.devices) && request !in was && CreateRequest !in faults;
        && server.requests.Keys == was.Keys + (if creates then {request} else {})
        && (forall k :: k in was ==> server.requests[k] == was[k])
        && (creates ==>
              var r := server.requests[request];
              !r.approved && r.conditions == [] && r.targetNamespace == key.namespace && r.targetSet == "")
      ensures failed <==>
        && (ReadDevice in faults || key !in server.devices)
        && (ReadRequest in faults || Key(key.name, initialNamespace) !in old(server.requests))
        && (CreateRequest in faults || Key(key.name, initialNamespace) in old(server.requests))
    {
      if ReadDevice !in faults && key in server.devices {
        return true, false;
      }
      var request := Key(key.name, initialNamespace);
      if ReadRequest !in faults && request in server.requests {
        var target := server.requests[request].targetNamespace;
        if target != key.namespace && ReadTargetDevice !in faults && Key(key.name, target) in server.devices {
          return true, false;
        }
        return false, false;
      }
      var created := server.CreateRequest(request, Request(false, key.namespace, "", []), CreateRequest in faults);
      return false, !created;
    }
  }

  // ---------- Runs ----------

  datatype Config = Config(autoApproval: bool, initialNamespace: string)

  /** The reconciles, and what devices and users do between them. */
  datatype Event =
    | ReconcileRequest(request: Key, faults: set<Call>)
    | ReconcileDevice(device: Key, faults: set<Call>)
    | Enrol(device: Key, faults: set<Call>)
    | Submit(request: Key, spec: Request)
    | Edit(request: Key, approved: bool, targetNamespace: string, targetSet: string)
    | Withdraw(request: Key)
    | DeleteDevice(device: Key)
    | Relabel(device: Key, labels: map<string, string>)

  function Next(cfg: Config, s: State, e: Event): State {
    match e
    case ReconcileRequest(key, faults) => RequestReconciled(cfg.autoApproval, s, key, faults).state
    case ReconcileDevice(key, faults) => DeviceReconciled(cfg.initialNamespace, s, key, faults).state
    case Enrol(key, faults) => Enrolled(cfg.initialNamespace, s, key, faults)
    case Submit(key, r) => if key in s.requests then s else s.(requests := s.requests[key := r.(conditions := [])])
    case Edit(key, approved, targetNamespace, targetSet) =>
      if key !in s.requests then s
      else s.(requests := s.requests[key := Request(approved, targetNamespace, targetSet, s.requests[key].conditions)])
    case Withdraw(key) => s.(requests := s.requests - {key})
    case DeleteDevice(key) =>
      if key !in s.devices then s
      else s.(devices := var d := s.devices[key].(deleting := true); WithFinalizers(s.devices[key := d], key, d.finalizers))
    case Relabel(key, labels) =>
      if key !in s.devices then s else s.(devices := s.devices[key := s.devices[key].(labels := labels)])
  }

  function Run(cfg: Config, s: State, events: seq<Event>): State {
    if events == [] then s
    else Next(cfg, Run(cfg, s, events[..|events| - 1]), events[|events| - 1])
  }

  lemma {:induction false} RunConcat(cfg: Config, s: State, a: seq<Event>, b: seq<Event>)
    ensures Run(cfg, s, a + b) == Run(cfg, Run(cfg, s, a), b)
    decreases |b|
  {
    if b == [] {
      assert a + b == a;
    } else {
      assert (a + b)[..|a + b| - 1] == a + b[..|b| - 1];
      RunConcat(cfg, s, a, b[..|b| - 1]);
    }
  }

  // ---------- The history of conditions ----------

  /** The last condition is active and no other is. */
  ghost predicate OneActive(conditions: seq<Condition>) {
    && (conditions != [] ==> conditions[|conditions| - 1].status == "true")
    && forall i :: 0 <= i < |conditions| - 1 ==> conditions[i].status == "false"
  }

  function Kinds(conditions: seq<Condition>): seq<string> {
    seq(|conditions|, i requires 0 <= i < |conditions| => conditions[i].kind)
  }

  ghost predicate HistoriesProper(s: State) {
    forall key :: key in s.requests ==> OneActive(s.requests[key].conditions)
  }

  lemma MarkedIsProper(conditions: seq<Condition>, kind: string)
    ensures OneActive(Marked(conditions, kind)) && Kinds(Marked(conditions, kind)) == Kinds(conditions) + [kind]
    ensures !IsPendingSpec(Marked(conditions, kind))
  {
    var m := Marked(conditions, kind);
    assert m[|conditions|] == Condition(kind, "true");
    assert forall i :: 0 <= i < |conditions| ==> m[i].status == "false";
  }

  /** A request's conditions change only by a reconcile of it, which marks it approved only beside its device. */
  ghost predicate MarkedBy(s: State, e: Event, s': State, key: Key, kind: string)
    requires key in s.requests && key in s'.requests
  {
    && e.ReconcileRequest? && e.request == key
    && s'.requests[key].conditions == Marked(s.requests[key].conditions, kind)
    && (kind == PENDING || kind == APPROVED)
    && (kind == APPROVED <==> s.requests[key].approved)
    && (kind == APPROVED ==> Key(key.name, s.requests[key].targetNamespace) in s'.devices)
    && s'.requests[key] == s.requests[key].(conditions := s'.requests[key].conditions)
  }

  lemma StepOnHistory(cfg: Config, s: State, e: Event, key: Key)
    requires key in Next(cfg, s, e).requests
    ensures key !in s.requests ==> Next(cfg, s, e).requests[key].conditions == []
    ensures key in s.requests && Next(cfg, s, e).requests[key].conditions != s.requests[key].conditions ==>
      MarkedBy(s, e, Next(cfg, s, e), key, PENDING) || MarkedBy(s, e, Next(cfg, s, e), key, APPROVED)
  {
  }

  /** In every run exactly the last condition of a request is "true". */
  lemma {:induction false} RunKeepsHistoriesProper(cfg: Config, s: State, events: seq<Event>)
    requires HistoriesProper(s)
    ensures HistoriesProper(Run(cfg, s, events))
    decreases |events|
  {
    if events != [] {
      var before, e := Run(cfg, s, events[..|events| - 1]), events[|events| - 1];
      RunKeepsHistoriesProper(cfg, s, events[..|events| - 1]);
      forall key | key in Next(cfg, before, e).requests ensures OneActive(Next(cfg, before, e).requests[key].conditions) {
        StepOnHistory(cfg, before, e, key);
        if key in before.requests {
          MarkedIsProper(before.requests[key].conditions, PENDING);
          MarkedIsProper(before.requests[key].conditions, APPROVED);
        }
      }
    }
  }

  ghost predicate StaysThroughout(cfg: Config, s: State, events: seq<Event>, key: Key) {
    forall i :: 0 <= i <= |events| ==> key in Run(cfg, s, events[..i]).requests
  }

  lemma StaysUntil(cfg: Config, s: State, events: seq<Event>, key: Key)
    requires StaysThroughout(cfg, s, events, key)
    ensures key in s.requests && key in Run(cfg, s, events).requests
    ensures events != [] ==> StaysThroughout(cfg, s, events[..|events| - 1], key)
  {
    assert events[..0] == [] && events[..|events|] == events;
    if events != [] {
      var front := events[..|events| - 1];
      forall i | 0 <= i <= |front| ensures key in Run(cfg, s, front[..i]).requests {
        assert front[..i] == events[..i];
      }
    }
  }

  /** While a request exists, its history only grows. */
  lemma {:induction false} HistoryGrows(cfg: Config, s: State, events: seq<Event>, key: Key)
    requires StaysThroughout(cfg, s, events, key)
    ensures key in s.requests && key in Run(cfg, s, events).requests
    ensures Kinds(s.requests[key].conditions) <= Kinds(Run(cfg, s, events).requests[key].conditions)
    decreases |events|
  {
    StaysUntil(cfg, s, events, key);
    if events != [] {
      var front := events[..|events| - 1];
      var before := Run(cfg, s, front);
      HistoryGrows(cfg, s, front, key);
      StepOnHistory(cfg, before, events[|events| - 1], key);
      MarkedIsProper(before.requests[key].conditions, PENDING);
      MarkedIsProper(before.requests[key].conditions, APPROVED);
    }
  }

  // ---------- Approval ----------

  ghost predicate ActiveApproved(s: State, key: Key) {
    && key in s.requests && s.requests[key].conditions != []
    && s.requests[key].conditions[|s.requests[key].conditions| - 1] == Condition(APPROVED, "true")
  }

  /** At the `i`th event the request was marked as it is in the end, and its device was in the store. */
  ghost predicate ApprovedAt(cfg: Config, s: State, events: seq<Event>, key: Key, i: nat)
    requires i < |events|
  {
    var before, after := Run(cfg, s, events[..i]), Run(cfg, s, events[..i + 1]);
    && key in before.requests && key in after.requests && key in Run(cfg, s, events).requests
    && MarkedBy(before, events[i], after, key, APPROVED)
    && after.requests[key].conditions == Run(cfg, s, events).requests[key].conditions
  }

  /** An active approved condition was written when the device it speaks of was in the store. */
  lemma {:induction false} ApprovedWasBacked(cfg: Config, s: State, events: seq<Event>, key: Key) returns (i: nat)
    requires !ActiveApproved(s, key) && ActiveApproved(Run(cfg, s, events), key)
    ensures i < |events| && ApprovedAt(cfg, s, events, key, i)
    decreases |events|
  {
    var n := |events| - 1;
    var front := events[..n];
    var before := Run(cfg, s, front);
    StepOnHistory(cfg, before, events[n], key);
    assert events[..n + 1] == events;
    if key in before.requests && before.requests[key].conditions == Run(cfg, s, events).requests[key].conditions {
      i := ApprovedWasBacked(cfg, s, front, key);
      assert front[..i] == events[..i] && front[..i + 1] == events[..i + 1];
    } else {
      i := n;
    }
  }

  /** A device comes into being exactly by a reconcile of an approved request for it, and with the finalizer. */
  lemma CreatedExactly(cfg: Config, s: State, e: Event, key: Key)
    requires key !in s.devices
    ensures key in Next(cfg, s, e).devices <==>
      && e.ReconcileRequest? && e.request in s.requests && e.faults !! {ReadRequest, CreateDevice}
      && s.requests[e.request].approved && key == Key(e.request.name, s.requests[e.request].targetNamespace)
    ensures key in Next(cfg, s, e).devices ==>
      var d := Next(cfg, s, e).devices[key];
      var r := s.requests[e.request];
      && d.finalizers == [DEVICE_FINALIZER] && !d.deleting
      && d.labels.Keys == {REQUEST_LABEL} + (if r.targetSet == "" then {} else {SET_LABEL})
      && d.labels[REQUEST_LABEL] == "true" && (r.targetSet != "" ==> d.labels[SET_LABEL] == r.targetSet)
  {
    if e.ReconcileRequest? {
      assert ReadRequest in {ReadRequest, CreateDevice} && CreateDevice in {ReadRequest, CreateDevice};
    }
  }

  lemma TwoSteps(cfg: Config, s: State, e: Event, f: Event)
    ensures Run(cfg, s, [e]) == Next(cfg, s, e)
    ensures Run(cfg, s, [e, f]) == Next(cfg, Next(cfg, s, e), f)
  {
    assert [e, f][..1] == [e] && [e][..0] == [];
    assert Run(cfg, s, []) == s;
    assert Run(cfg, s, [e]) == Next(cfg, s, e);
  }

  /** With automatic approval, two reconciles without failures bring a request to a device and an approved condition,
      whatever the state they start from. */
  lemma TwoReconcilesEnrol(cfg: Config, s: State, key: Key)
    requires cfg.autoApproval && key in s.requests
    ensures var end := Run(cfg, s, [ReconcileRequest(key, {}), ReconcileRequest(key, {})]);
      && ActiveApproved(end, key) && end.requests[key].approved
      && var device := Key(key.name, s.requests[key].targetNamespace);
      && device in end.devices
      && (device !in s.devices ==> end.devices == s.devices[device := NewDevice(s.requests[key])])
      && (device in s.devices ==> end.devices == s.devices)
  {
    var e := ReconcileRequest(key, {});
    TwoSteps(cfg, s, e, e);
    var middle := Next(cfg, s, e);
    MarkedIsProper(middle.requests[key].conditions, APPROVED);
  }

  // ---------- What a reconcile reports ----------

  /** A reconcile asks to be called again exactly for an error or after approving the request itself. */
  lemma RequestAsksAgain(autoApproval: bool, s: State, key: Key, faults: set<Call>)
    ensures var o := RequestReconciled(autoApproval, s, key, faults);
      o.requeue <==> o.failed || (ReadRequest !in faults && key in s.requests && !s.requests[key].approved && autoApproval)
  {
  }

  /** Exactly when a reconcile reports an error; it then leaves all requests as they were. */
  lemma RequestFailsExactly(autoApproval: bool, s: State, key: Key, faults: set<Call>)
    ensures var o := RequestReconciled(autoApproval, s, key, faults);
      && (o.failed <==>
            || ReadRequest in faults
            || (key in s.requests
                && var r, device := s.requests[key], Key(key.name, s.requests[key].targetNamespace);
                   || (!r.approved && autoApproval && PatchSpec in faults)
                   || (!r.approved && !autoApproval && PatchConditions in faults && Condition("pending", "True") !in r.conditions)
                   || (r.approved && device in s.devices && ReadDevice in faults)
                   || (r.approved && device !in s.devices && CreateDevice in faults)
                   || (r.approved && PatchConditions in faults)))
      && (o.failed ==> o.state.requests == s.requests)
  {
  }

  // ---------- Without approval ----------

  /** The event approves a request of this name. */
  predicate Approves(e: Event, name: string) {
    match e
    case Edit(request, approved, _, _) => request.name == name && approved
    case Submit(request, spec) => request.name == name && spec.approved
    case _ => false
  }

  ghost predicate NoneApproves(events: seq<Event>, name: string) {
    forall i :: 0 <= i < |events| ==> !Approves(events[i], name)
  }

  /** No user has approved the device, and it does not exist. */
  ghost predicate Unapproved(s: State, key: Key) {
    && key !in s.devices
    && forall r :: r in s.requests && r.name == key.name && s.requests[r].approved ==>
         s.requests[r].targetNamespace != key.namespace
  }

  lemma StepKeepsUnapproved(cfg: Config, s: State, e: Event, key: Key)
    requires !cfg.autoApproval && Unapproved(s, key) && !Approves(e, key.name)
    ensures Unapproved(Next(cfg, s, e), key)
  {
    var s' := Next(cfg, s, e);
    if key in s'.devices {
      CreatedExactly(cfg, s, e, key);
      assert false;
    }
    forall r | r in s'.requests && r.name == key.name && s'.requests[r].approved
      ensures s'.requests[r].targetNamespace != key.namespace
    {
      assert r in s.requests && s.requests[r].approved && s.requests[r].targetNamespace == s'.requests[r].targetNamespace;
    }
  }

  lemma {:induction false} RunKeepsUnapproved(cfg: Config, s: State, events: seq<Event>, key: Key)
    requires !cfg.autoApproval && Unapproved(s, key) && NoneApproves(events, key.name)
    ensures Unapproved(Run(cfg, s, events), key)
    decreases |events|
  {
    if events != [] {
      RunKeepsUnapproved(cfg, s, events[..|events| - 1], key);
      assert !Approves(events[|events| - 1], key.name);
      StepKeepsUnapproved(cfg, Run(cfg, s, events[..|events| - 1]), events[|events| - 1], key);
    }
  }

  /** In no run does the device exist at the end unless some event approves a request of its name. */
  ghost predicate NeverWithoutApproval(cfg: Config, s: State, key: Key) {
    forall events :: NoneApproves(events, key.name) ==> key !in Run(cfg, s, events).devices
  }

  /** With automatic approval, three events that approve nothing bring the device about. */
  lemma AutomaticApproval(cfg: Config, s: State, key: Key) returns (events: seq<Event>)
    requires cfg.autoApproval && key !in s.devices
    ensures NoneApproves(events, key.name) && key in Run(cfg, s, events).devices
  {
    var request := Key(key.name, cfg.initialNamespace);
    var first := if request in s.requests then Edit(request, false, key.namespace, "") else Enrol(key, {});
    var e := ReconcileRequest(request, {});
    var requested := Next(cfg, s, first);
    TwoReconcilesEnrol(cfg, requested, request);
    RunConcat(cfg, s, [first], [e, e]);
    TwoSteps(cfg, s, first, e);
    events := [first] + [e, e];
    assert requested.requests[request].targetNamespace == key.namespace;
  }

  /** Exactly when no device comes into being without a user's approval: without automatic approval, from a store that
      has neither the device nor an approved request for it. */
  lemma ApprovalIsNeeded(cfg: Config, s: State, key: Key)
    ensures NeverWithoutApproval(cfg, s, key) <==> !cfg.autoApproval && Unapproved(s, key)
  {
    if !cfg.autoApproval && Unapproved(s, key) {
      forall events | NoneApproves(events, key.name) ensures key !in Run(cfg, s, events).devices {
        RunKeepsUnapproved(cfg, s, events, key);
      }
    } else if key in s.devices {
      assert NoneApproves([], key.name) && key in Run(cfg, s, []).devices;
    } else if cfg.autoApproval {
      var events := AutomaticApproval(cfg, s, key);
    } else {
      var r :| r in s.requests && r.name == key.name && s.requests[r].approved && s.requests[r].targetNamespace == key.namespace;
      var e := ReconcileRequest(r, {});
      TwoSteps(cfg, s, e, e);
      CreatedExactly(cfg, s, e, key);
      assert NoneApproves([e], key.name);
    }
  }

  // ---------- Reconciling again ----------

  /** A reconcile without failures leaves the store alone exactly when there is no such request, or one that awaits a
      user's approval with a pending condition whose status is spelt "True". */
  lemma QuietExactly(cfg: Config, s: State, key: Key)
    ensures Next(cfg, s, ReconcileRequest(key, {})) == s <==>
      || key !in s.requests
      || (!s.requests[key].approved && !cfg.autoApproval && Condition(PENDING, "True") in s.requests[key].conditions)
  {
    if key in s.requests {
      var conditions := s.requests[key].conditions;
      assert |Marked(conditions, PENDING)| == |conditions| + 1 == |Marked(conditions, APPROVED)|;
    }
  }

  ghost predicate AwaitsApproval(cfg: Config, s: State, key: Key) {
    !cfg.autoApproval && key in s.requests && !s.requests[key].approved && OneActive(s.requests[key].conditions)
  }

  lemma PendingStep(cfg: Config, s: State, key: Key)
    requires AwaitsApproval(cfg, s, key)
    ensures var end := Next(cfg, s, ReconcileRequest(key, {}));
      && end.devices == s.devices && AwaitsApproval(cfg, end, key)
      && Kinds(end.requests[key].conditions) == Kinds(s.requests[key].conditions) + [PENDING]
  {
    var conditions := s.requests[key].conditions;
    assert Condition(PENDING, "True") !in conditions by {
      assert forall c :: c in conditions ==> c.status == "true" || c.status == "false";
    }
    MarkedIsProper(conditions, PENDING);
  }

  function Repeat(e: Event, n: nat): seq<Event> {
    seq(n, _ => e)
  }

  /** The reconciler spells it "true"; so in every run of it each reconcile of a pending request appends one more
      condition. */
  lemma {:induction false} PendingGrows(cfg: Config, s: State, key: Key, n: nat)
    requires AwaitsApproval(cfg, s, key)
    ensures var end := Run(cfg, s, Repeat(ReconcileRequest(key, {}), n));
      && end.devices == s.devices && AwaitsApproval(cfg, end, key)
      && Kinds(end.requests[key].conditions) == Kinds(s.requests[key].conditions) + seq(n, _ => PENDING)
  {
    var e := ReconcileRequest(key, {});
    if n == 0 {
      assert Kinds(s.requests[key].conditions) + seq(0, _ => PENDING) == Kinds(s.requests[key].conditions);
    } else {
      PendingGrows(cfg, s, key, n - 1);
      var before := Run(cfg, s, Repeat(e, n - 1));
      assert Repeat(e, n)[..n - 1] == Repeat(e, n - 1);
      assert Run(cfg, s, Repeat(e, n)) == Next(cfg, before, e);
      PendingStep(cfg, before, key);
      assert seq(n, _ => PENDING) == seq(n - 1, _ => PENDING) + [PENDING];
    }
  }

  // ---------- Deletion ----------

  predicate Guarded(s: State, key: Key) {
    key in s.devices && DEVICE_FINALIZER in s.devices[key].finalizers
  }

  /** The device reconciler takes the finalizer only from a device marked for deletion, and no request of its name is
      left in the initial namespace then; nothing else takes it. */
  lemma FinalizerDropped(cfg: Config, s: State, e: Event, key: Key)
    requires Guarded(s, key) && !Guarded(Next(cfg, s, e), key)
    ensures e.ReconcileDevice? && e.device == key && s.devices[key].deleting
    ensures Key(key.name, cfg.initialNamespace) !in Next(cfg, s, e).requests
  {
  }

  /** Exactly when a reconcile of a device marked for deletion ends it, and its request with it. */
  lemma DeletionCompletes(cfg: Config, s: State, key: Key, faults: set<Call>)
    requires Guarded(s, key) && s.devices[key].deleting
    ensures var request := Key(key.name, cfg.initialNamespace);
      var after := DeviceReconciled(cfg.initialNamespace, s, key, faults);
      && (key !in after.state.devices <==>
          && faults !! {ReadDevice, ReadRequest, PatchFinalizers}
          && (request in s.requests ==> DeleteRequest !in faults)
          && forall f :: f in s.devices[key].finalizers ==> f == DEVICE_FINALIZER)
      && (!after.failed <==> faults !! {ReadDevice, ReadRequest} && (request in s.requests ==> DeleteRequest !in faults))
      && (!after.failed ==> request !in after.state.requests)
      && after.requeue == after.failed
  {
    var finalizers := s.devices[key].finalizers;
    FinalizersLessExact(finalizers, DEVICE_FINALIZER);
    var left := FinalizersLess(finalizers, DEVICE_FINALIZER);
    if left != [] {
      assert left[0] in left;
    }
    var needed := {ReadDevice, ReadRequest, PatchFinalizers};
    assert ReadDevice in needed && ReadRequest in needed && PatchFinalizers in needed;
    var toRead := {ReadDevice, ReadRequest};
    assert ReadDevice in toRead && ReadRequest in toRead;
  }

  /** The event asks for a device of this name to be enrolled. */
  predicate Enrols(e: Event, name: string) {
    match e
    case Enrol(key, _) => key.name == name
    case Submit(key, _) => key.name == name
    case _ => false
  }

  ghost predicate NoneEnrols(events: seq<Event>, name: string) {
    forall i :: 0 <= i < |events| ==> !Enrols(events[i], name)
  }

  /** Every request of this name is in the initial namespace, where Enrol puts it. */
  ghost predicate RequestsAtHome(cfg: Config, s: State, name: string) {
    forall key :: key in s.requests && key.name == name ==> key.namespace == cfg.initialNamespace
  }

  ghost predicate Unrequested(s: State, name: string) {
    forall key :: key in s.requests ==> key.name != name
  }

  /** The device is guarded by its finalizer, or nothing is left that could bring it back. */
  ghost predicate GuardedOrFinal(cfg: Config, s: State, key: Key) {
    RequestsAtHome(cfg, s, key.name) && (Guarded(s, key) || Unrequested(s, key.name))
  }

  lemma StepOnDeletion(cfg: Config, s: State, e: Event, key: Key)
    requires GuardedOrFinal(cfg, s, key) && !Enrols(e, key.name)
    ensures GuardedOrFinal(cfg, Next(cfg, s, e), key)
    ensures key !in s.devices ==> key !in Next(cfg, s, e).devices
  {
    if Guarded(s, key) && !Guarded(Next(cfg, s, e), key) {
      FinalizerDropped(cfg, s, e, key);
    }
  }

  lemma {:induction false} RunOnDeletion(cfg: Config, s: State, events: seq<Event>, key: Key)
    requires GuardedOrFinal(cfg, s, key) && NoneEnrols(events, key.name)
    ensures GuardedOrFinal(cfg, Run(cfg, s, events), key)
    ensures key !in s.devices ==> key !in Run(cfg, s, events).devices
    decreases |events|
  {
    if events != [] {
      RunOnDeletion(cfg, s, events[..|events| - 1], key);
      assert !Enrols(events[|events| - 1], key.name);
      StepOnDeletion(cfg, Run(cfg, s, events[..|events| - 1]), events[|events| - 1], key);
    }
  }

  /** No resurrection: once a device is gone it stays gone, in every run that does not enrol its name anew; and then no
      request of its name is left. */
  lemma NoResurrection(cfg: Config, s: State, before: seq<Event>, after: seq<Event>, key: Key)
    requires Guarded(s, key) && RequestsAtHome(cfg, s, key.name)
    requires NoneEnrols(before + after, key.name)
    requires key !in Run(cfg, s, before).devices
    ensures key !in Run(cfg, s, before + after).devices && Unrequested(Run(cfg, s, before + after), key.name)
  {
    assert NoneEnrols(before, key.name) by {
      assert forall i :: 0 <= i < |before| ==> before[i] == (before + after)[i];
    }
    assert NoneEnrols(after, key.name) by {
      assert forall i :: 0 <= i < |after| ==> after[i] == (before + after)[|before| + i];
    }
    RunConcat(cfg, s, before, after);
    RunOnDeletion(cfg, s, before, key);
    RunOnDeletion(cfg, Run(cfg, s, before), after, key);
  }

  /** In every run that does not enrol the name anew, the device stays gone once it is gone. */
  ghost predicate NeverResurrects(cfg: Config, s: State, key: Key) {
    forall before, after :: NoneEnrols(before + after, key.name) && key !in Run(cfg, s, before).devices ==>
      key !in Run(cfg, s, before + after).devices
  }

  /** The device carries a finalizer that nothing in this program takes off. */
  ghost predicate HeldByOthers(s: State, key: Key) {
    key in s.devices && exists f :: f in s.devices[key].finalizers && f != DEVICE_FINALIZER
  }

  lemma StepKeepsHeld(cfg: Config, s: State, e: Event, key: Key)
    requires HeldByOthers(s, key)
    ensures HeldByOthers(Next(cfg, s, e), key)
  {
    var f :| f in s.devices[key].finalizers && f != DEVICE_FINALIZER;
    FinalizersLessExact(s.devices[key].finalizers, DEVICE_FINALIZER);
    assert f in FinalizersLess(s.devices[key].finalizers, DEVICE_FINALIZER);
    assert key in Next(cfg, s, e).devices && f in Next(cfg, s, e).devices[key].finalizers;
  }

  lemma {:induction false} RunKeepsHeld(cfg: Config, s: State, events: seq<Event>, key: Key)
    requires HeldByOthers(s, key)
    ensures HeldByOthers(Run(cfg, s, events), key)
    decreases |events|
  {
    if events != [] {
      RunKeepsHeld(cfg, s, events[..|events| - 1], key);
      StepKeepsHeld(cfg, Run(cfg, s, events[..|events| - 1]), events[|events| - 1], key);
    }
  }

  lemma DeletedForGood(cfg: Config, s: State, key: Key, other: Key)
    requires Guarded(s, key) && !HeldByOthers(s, key)
    requires other in s.requests && other != Key(key.name, cfg.initialNamespace)
    ensures var gone := Run(cfg, s, [DeleteDevice(key), ReconcileDevice(key, {})]);
      key !in gone.devices && other in gone.requests
  {
    var finalizers := s.devices[key].finalizers;
    TwoSteps(cfg, s, DeleteDevice(key), ReconcileDevice(key, {}));
    FinalizersLessExact(finalizers, DEVICE_FINALIZER);
    var left := FinalizersLess(finalizers, DEVICE_FINALIZER);
    if left != [] {
      assert left[0] in left;
      assert HeldByOthers(s, key);
    }
  }

  /** Any request of the name outside the initial namespace survives the device's deletion and can bring it back. */
  lemma ForeignRequestResurrects(cfg: Config, s: State, key: Key, other: Key)
    requires Guarded(s, key) && !HeldByOthers(s, key)
    requires other in s.requests && other.name == key.name && other.namespace != cfg.initialNamespace
    ensures var before := [DeleteDevice(key), ReconcileDevice(key, {})];
      var after := [Edit(other, true, key.namespace, ""), ReconcileRequest(other, {})];
      && NoneEnrols(before + after, key.name)
      && key !in Run(cfg, s, before).devices && key in Run(cfg, s, before + after).devices
  {
    var delete, remove := DeleteDevice(key), ReconcileDevice(key, {});
    var edit, reconcile := Edit(other, true, key.namespace, ""), ReconcileRequest(other, {});
    var gone := Run(cfg, s, [delete, remove]);
    DeletedForGood(cfg, s, key, other);
    TwoSteps(cfg, gone, edit, reconcile);
    RunConcat(cfg, s, [delete, remove], [edit, reconcile]);
    CreatedExactly(cfg, Next(cfg, gone, edit), reconcile, key);
  }

  /** No resurrection, exactly: a guarded device stays gone in every run if and only if all requests of its name are in
      the initial namespace, or it can never go. */
  lemma NeverResurrectsExactly(cfg: Config, s: State, key: Key)
    requires Guarded(s, key)
    ensures NeverResurrects(cfg, s, key) <==> RequestsAtHome(cfg, s, key.name) || HeldByOthers(s, key)
  {
    if RequestsAtHome(cfg, s, key.name) {
      forall before, after | NoneEnrols(before + after, key.name) && key !in Run(cfg, s, before).devices
        ensures key !in Run(cfg, s, before + after).devices
      {
        NoResurrection(cfg, s, before, after, key);
      }
    } else if HeldByOthers(s, key) {
      forall before { RunKeepsHeld(cfg, s, before, key); }
    } else {
      var other :| other in s.requests && other.name == key.name && other.namespace != cfg.initialNamespace;
      ForeignRequestResurrects(cfg, s, key, other);
    }
  }

  lemma DeletedAgain(cfg: Config, s: State, key: Key)
    requires key in s.devices && s.devices[key].finalizers == [DEVICE_FINALIZER]
    ensures Run(cfg, s, [DeleteDevice(key), ReconcileDevice(key, {})])
         == State(s.requests - {Key(key.name, cfg.initialNamespace)}, s.devices - {key})
  {
    var deleted := Next(cfg, s, DeleteDevice(key));
    TwoSteps(cfg, s, DeleteDevice(key), ReconcileDevice(key, {}));
    FinalizersLessExact([DEVICE_FINALIZER], DEVICE_FINALIZER);
    assert FinalizersLess([DEVICE_FINALIZER], DEVICE_FINALIZER) == [];
    assert deleted.devices - {key} == s.devices - {key};
  }

  /** Enrolling a new device, having it approved, and deleting it again leaves the store as it was. */
  lemma LifeCycle(cfg: Config, s: State, key: Key)
    requires cfg.autoApproval && key !in s.devices && Key(key.name, cfg.initialNamespace) !in s.requests
    ensures var request := Key(key.name, cfg.initialNamespace);
      var enrolled := Run(cfg, s, [Enrol(key, {}), ReconcileRequest(request, {}), ReconcileRequest(request, {})]);
      && Guarded(enrolled, key) && ActiveApproved(enrolled, request)
      && Run(cfg, enrolled, [DeleteDevice(key), ReconcileDevice(key, {})]) == s
  {
    var request := Key(key.name, cfg.initialNamespace);
    var e := ReconcileRequest(request, {});
    var requested := Next(cfg, s, Enrol(key, {}));
    TwoReconcilesEnrol(cfg, requested, request);
    RunConcat(cfg, s, [Enrol(key, {})], [e, e]);
    TwoSteps(cfg, s, Enrol(key, {}), e);
    assert [Enrol(key, {})] + [e, e] == [Enrol(key, {}), e, e];
    TwoSteps(cfg, requested, e, e);
    var enrolled := Run(cfg, requested, [e, e]);
    assert enrolled.requests - {request} == s.requests;
    assert enrolled.devices - {key} == s.devices;
    DeletedAgain(cfg, enrolled, key);
  }
}
