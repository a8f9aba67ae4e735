/** The API server's store, written by patches that either succeed or have no effect. */
module ClusterStore {
  import opened Entities

  /** A stored workload after a patch from `from` to `to`; a deleted one goes with its last finalizer. */
  function PatchedWorkloads(workloads: map<string, Workload>, from: Workload, to: Workload): map<string, Workload>
    requires from.name in workloads
  {
    var cur := workloads[from.name];
    var w := cur.(labels := MergePatch(cur.labels, from.labels, to.labels),
                  finalizers := if from.finalizers == to.finalizers then cur.finalizers else to.finalizers);
    if w.deleting && w.finalizers == [] then workloads - {from.name} else workloads[from.name := w]
  }

  class Cluster {
    var devices: map<string, Device>
    var workloads: map<string, Workload>
    /** The number of patches sent so far, failed ones included. */
    var writes: nat

    constructor (state: State)
      ensures Snapshot() == state
    {
      devices, workloads, writes := state.devices, state.workloads, 0;
    }

    function Snapshot(): State
      reads this
    {
      State(devices, workloads)
    }

    /** Patches the status of a device that was read as `snap`; a list is replaced as a whole. */
    method PatchStatus(snap: Device, ps: seq<Placement>, faults: set<Call>) returns (ok: bool)
      requires snap.name in devices
      modifies this
      ensures ok <==> Call.PatchStatus(snap.name) !in faults
      ensures devices == if ok && ps != snap.workloads then old(devices)[snap.name := old(devices)[snap.name].(workloads := ps)]
                         else old(devices)
      ensures workloads == old(workloads) && writes == old(writes) + 1
    {
      writes := writes + 1;
      ok := Call.PatchStatus(snap.name) !in faults;
      if ok && ps != snap.workloads {
        devices := devices[snap.name := devices[snap.name].(workloads := ps)];
      }
    }

    /** Patches the labels of a device from those read in `snap` to `labels`. */
    method PatchLabels(snap: Device, labels: map<string, string>, faults: set<Call>) returns (ok: bool)
      requires snap.name in devices
      modifies this
      ensures ok <==> Call.PatchLabels(snap.name) !in faults
      ensures devices == if ok then old(devices)[snap.name := old(devices)[snap.name].(
                                      labels := MergePatch(old(devices)[snap.name].labels, snap.labels, labels))]
                         else old(devices)
      ensures workloads == old(workloads) && writes == old(writes) + 1
    {
      writes := writes + 1;
      ok := Call.PatchLabels(snap.name) !in faults;
      if ok {
        var cur := devices[snap.name];
        devices := devices[snap.name := cur.(labels := MergePatch(cur.labels, snap.labels, labels))];
      }
    }

    method PatchWorkload(from: Workload, to: Workload, fails: bool) returns (ok: bool)
      requires from.name in workloads
      modifies this
      ensures ok == !fails
      ensures workloads == if ok then PatchedWorkloads(old(workloads), from, to) else old(workloads)
      ensures devices == old(devices) && writes == old(writes) + 1
    {
      writes := writes + 1;
      ok := !fails;
      if ok {
        workloads := PatchedWorkloads(workloads, from, to);
      }
    }

    /** Reads the devices of `names`, in an order of the server's choice. */
    method List(names: set<string>) returns (ds: seq<Device>)
      requires names <= devices.Keys && NamedByKey(devices)
      ensures ExactListing(ds, names, devices)
    {
      ds := [];
      var rest := names;
      while rest != {}
        invariant rest <= names && DistinctDevices(ds)
        invariant forall k :: 0 <= k < |ds| ==> ds[k].name in names - rest && devices[ds[k].name] == ds[k]
        invariant forall n :: n in names && n !in rest ==> exists k :: 0 <= k < |ds| && ds[k].name == n
        decreases rest
      {
        var n :| n in rest;
        ghost var before := ds;
        ghost var was := rest;
        ds := ds + [devices[n]];
        rest := rest - {n};
        forall m | m in names && m !in rest ensures exists k :: 0 <= k < |ds| && ds[k].name == m {
          if m == n {
            assert ds[|before|].name == m;
          } else {
            assert m in names && m !in was;
            var k :| 0 <= k < |before| && before[k].name == m;
            assert ds[k].name == m;
          }
        }
      }
    }
  }
}
