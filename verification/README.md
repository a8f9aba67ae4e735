# Placement, configmaps and enrolment in the flotta operator

A Dafny model of the parts of the operator that keep state consistent across many steps, with proofs about every
input, every run and every interleaving. `dafny verify dfyconfig.toml` checks the project.

## What is modelled

**Workload placement.** "Workload w is placed on device d" is stored twice on the device: as an entry of
`Status.Workloads` and as a label `workload/<w>`. Two reconcilers write it. The workload reconciler goes workload by
workload: it finds the matching devices and the holders, fans two kinds of patches out over goroutines, and guards
deletion with a finalizer. The device reconciler goes device by device: it looks candidates up through `selector/`
labels, filters them and rewrites the device's list.

| module | content |
|---|---|
| `Labels`, `Entities` | label prefixes; custom resources; selectors; merge patches (section 2 of RFC 7396) |
| `ClusterStore`, `Finalizers` | the API server's store with patches that succeed or have no effect |
| `Index` | the derived `selector/` labels, both index functions, the queries of a device |
| `FanOut` | goroutines as threads whose steps are single patches; all schedules; the sequential loop |
| `WorkloadReconciler`, `DeviceLabelsReconciler` | the two reconcilers as classes over the store, with their specification functions |
| `PlacementRuns`, `Quiescence` | runs of both reconcilers with arbitrary failures: invariants, progress, convergence, deletion, coming to rest |
| `ConfigMaps` | collecting the configmaps a pod refers to in a map of shared, mutable key sets; reading them |
| `Enrolment` | signed requests, device creation and deletion, the backend's Enrol, and runs of them |
| `Lora`, `NormalizeLabel` | the end-node list of a device; label normalisation |

A reconcile takes the set of calls that fail in it as a parameter; a failing call reports an error and has no
effect. Runs quantify over those sets, over the order of reconciles and, inside one reconcile, over the interleaving
of the goroutines' patches. Classes with methods stand for the code that updates state; each method's contract ties
the new state to a specification function or relation, and the lemmas are about those.

Terms used in the table below:

- A workload is *synchronised* when its selector labels are those of its specification (`InSync`).
- The *target* of a workload is the set of devices that `getMatchingEdgeDevices` would return for it, and nothing once
  its deletion was requested. A pair *agrees* when the device lists the workload exactly if it is in the target; it is
  *right* when the placement label does so too.
- The device reconciler has a verdict of its own on a live workload: some query of the device finds it, and it matches
  (`Finds`). A pair is *settled* when the workload is synchronised and both verdicts are the same, or when it is deleted
  or absent. `VerdictsDifferExactly` says exactly which synchronised workloads and devices are not, and `VerdictsAgree`
  names an everyday condition: at most one of `Spec.Device` and `Spec.DeviceSelector`, a MatchLabels, In, Exists or
  DoesNotExist requirement in a selector, and no device label `devicename`.
- A workload is *backed* when each of its status entries has its placement label or a device that it selects.

A store is well-formed when objects are filed under their names and no device lists a workload twice. All further
hypotheses concern the one workload and device that a theorem is about, so other workloads may be as odd as they like.
The hypotheses on its specification are that its selector has no placement label as a key, since placing it would then
change where it belongs, and, for being backed, that it uses at most one of `Spec.Device` and `Spec.DeviceSelector`.

## Where the code differs from what it promises

Each of these is modelled as the code has it, with the exact condition under which the promise is met.

- `ListForWorkload` asks for a label called `device-by-workload`
  (internal/common/repository/edgedevice/edgedevice.go:100), not for the index of that name (cmd/manager/main.go:300).
  Both are modelled (`Lookup`). Theorems about a step say exactly what either lookup leaves: `WorkloadRunCorrects` and
  `FinalizerStep` name the devices overlooked, `IndexOverlooksNothing` shows that the index overlooks none,
  `LabelQueryLosesPlacement` gives a store in which the label query drops a workload that a device still lists, and
  `RestsIffItCan` says exactly when a workload comes to rest rather than being patched for ever.
- The vendored client overwrites the object it patched with the server's answer
  (vendor/sigs.k8s.io/controller-runtime/pkg/client/apiutil/apimachinery.go:184-196). In
  controllers/edgedevicelabels_controller.go:117-121 the second patch is then computed from the stored labels and
  changes nothing. Both behaviours are modelled (`writeBack`); run theorems hold for both, and `DeviceRunLabels` says
  exactly when entries and labels still agree after a device reconcile.
- A reconcile marks the active condition "true" and `IsPending` looks for "True"
  (controllers/edgedevicesignedrequest_controller.go:126 and 158), so a pending request is marked again by each reconcile:
  `QuietExactly` and `PendingGrows`.
- The repositories' RemoveFinalizer reports success when its patch fails
  (internal/common/repository/edgedevice/edgedevice.go:128-133 and
  internal/common/repository/edgeworkload/edgeworkload.go:51-56): `DeletionCompletes` for devices and `RemovalCompletes`
  for workloads say exactly when the deletion ends and when success is reported. A workload with an invalid selector is
  never deleted: `InvalidSelectorBlocksDeletion`.
- `Fetch` dereferences `ValueFrom` before it is compared with nil (internal/edgeapi/configmaps/configmaps.go:111 and
  internal/common/utils/utils.go:101): the contract of `Fetch` says exactly when it panics.
- The two reconcilers have different verdicts on some workloads: an empty selector, or one of NotIn requirements only,
  selects devices that cannot find it (controllers/edgeworkload_controller.go:280-286 against
  controllers/edgedevicelabels_controller.go:94-98), and a selector beside `Spec.Device` is ignored by the one and
  consulted by the other. One then places what the other drops, for ever:
  `EachFollowsItsVerdict` says for which pairs, `VerdictsDifferExactly` what they look like, and
  `EmptySelectorIsFoughtOver` gives one.
- A device reconcile drops a right placement while the workload's selector labels are stale:
  `DeviceRunAgreesExactly` and `UnsettledPlacementIsDropped`.
- A workload reconcile that adds the finalizer makes it the only one (controllers/edgeworkload_controller.go:85), so
  finalizers of others are lost: `ReconcileBeforeDevices`.
- A device being deleted is skipped by its own reconcile (controllers/edgedevicelabels_controller.go:62-64), while the
  workload reconciler still writes to it: `DeviceRunAgreesExactly` and `DeletingDeviceIsLeft`.
- A request outside the initial namespace survives its device (controllers/edgedevice_controller.go:113), and any such
  request can bring the device back: `NeverResurrectsExactly`.
- NormalizeLabel cuts at lower-case letters and digits of any script and then filters by ASCII
  (internal/common/utils/utils.go:35-44), so its result may be empty or start or end with a separator:
  `WellFormedExactly`, `NormalizeTwice` and `ForeignEnds`; `AsciiLabels` shows that this does not happen to ASCII strings.
- splitEdgeDevices converts its size to `int`; the contract of `SplitEdgeDevices` says exactly when it panics.

## Model

| member | source | states |
|---|---|---|
| `Labels.PrefixRoundTrip` | internal/common/labels/labels.go:15-29 | a constructed label is recognised by its prefix, and trimming the prefix gives the name back |
| `Labels.LabelsExactly` | internal/common/labels/labels.go:19-25 | the recognisers accept exactly the strings that begin with `workload/` and `selector/`; trimming a prefix that is not there changes nothing |
| `Labels.WorkloadLabelsDistinct` | internal/common/labels/labels.go:15-21 | placement labels of different workloads never collide |
| `Labels.SelectorLabelsDistinct` | internal/common/labels/labels.go:23-29 | selector labels of different keys never collide |
| `Entities.MatchersAgree` | controllers/edgedevicelabels_controller.go:156-167 | the device reconciler's test and the workload reconciler's selection differ exactly for a workload that names another device and also has a selector matching this one; it errs exactly for an invalid selector of a workload that does not name this device |
| `Entities.PairIsIn` | internal/common/repository/edgedevice/edgedevice.go:80-90 | a matchLabels pair accepts exactly the label maps with that value, as In with the one value does |
| `Entities.OperatorLaws` | internal/common/repository/edgedevice/edgedevice.go:80-90 | In is the disjunction over its values, NotIn its complement, DoesNotExist the complement of Exists, which asks for the key |
| `Entities.SelectorIsConjunction` | internal/common/repository/edgedevice/edgedevice.go:80-90 | a selector accepts what all its pairs and requirements accept, so an empty one everything |
| `Entities.InvalidExactly` | internal/common/repository/edgedevice/edgedevice.go:81-84 | a selector is rejected exactly for an unknown operator, In or NotIn without values, or Exists or DoesNotExist with values |
| `Entities.SelectionStable` | controllers/edgeworkload_controller.go:272-288 | adding or removing placement labels changes no selection by keys that are not placement labels |
| `Entities.MergePatchOfCurrent` | internal/common/repository/edgedevice/edgedevice.go:75-78 | a merge patch computed against what is stored stores exactly what was wanted |
| `Entities.MergePatchAt` | internal/common/repository/edgedevice/edgedevice.go:75-78 | a patch moves exactly the keys on which its two versions differ, whatever is stored; all others keep the stored value |
| `Entities.ReworkedKeeps` | controllers/edgedevicelabels_controller.go:199-217 | when a list is reworked by keeping entries in order and appending new ones, an entry that stays keeps its phase |
| `ClusterStore.Cluster.PatchStatus` | internal/common/repository/edgedevice/edgedevice.go:71-73 | replaces the one device's whole list or, when it fails, nothing; labels, other devices and workloads stay |
| `ClusterStore.Cluster.PatchLabels` | internal/common/repository/edgedevice/edgedevice.go:75-78 | changes only the labels that differ between the two versions, on one device, or nothing when it fails |
| `ClusterStore.Cluster.PatchWorkload` | internal/common/repository/edgeworkload/edgeworkload.go:34-37 | patches one workload, which disappears when it is being deleted and loses its last finalizer |
| `ClusterStore.Cluster.List` | internal/common/repository/edgedevice/edgedevice.go:80-105 | returns each asked-for device once, as stored, in any order |
| `Finalizers.HasFinalizer` | internal/common/utils/utils.go:20-27 | the search finds exactly the finalizers present |
| `Finalizers.FinalizersWithout` | internal/common/repository/edgedevice/edgedevice.go:120-126 | the copying loop drops every occurrence of one finalizer |
| `Finalizers.FinalizersLessExact` | internal/common/repository/edgeworkload/edgeworkload.go:40-57 | exactly the other finalizers remain, and nothing changes if it was not there |
| `Index.UpdateSelectorLabels` | controllers/edgeworkload_controller.go:415-449 | label by label: every label without the selector prefix stays with its value, and the selector labels are exactly those that the specification asks for, with their values |
| `Index.StaleSelectorLabelsIgnored` | controllers/edgeworkload_controller.go:402-425 | selector labels already present play no part, labels without the prefix survive, and a second update changes nothing |
| `Index.WorkloadByDeviceIndexFunc` | internal/common/indexer/indexer.go:23-35 | files a live workload under the key of each of its selector labels, and a deleted one under none |
| `Index.DeviceByWorkloadIndexFunc` | internal/common/indexer/indexer.go:37-50 | files a device under the name of each of its placement labels |
| `Index.DeviceIndexIsLabel` | internal/common/indexer/indexer.go:37-70 | the index returns for a workload exactly the devices that carry its placement label |
| `Index.CreateSelectorLabelsMap` | controllers/edgedevicelabels_controller.go:169-184 | the queries of a device: its name, the absence query, and one for each label that is not a placement label |
| `Index.AskedKeys` | controllers/edgedevicelabels_controller.go:169-184 | the index keys that a device's queries amount to, read off its name and labels |
| `Index.AnsweredKeys` | internal/common/indexer/indexer.go:77-85 | the index keys of a synchronised workload, read off its specification |
| `Index.HitExactly` | controllers/edgedevicelabels_controller.go:94-98 | the index finds a live synchronised workload for a device if and only if what the device asks for and what the specification offers intersect |
| `Index.IndexComplete` | controllers/edgedevicelabels_controller.go:87-111 | no device that matches a live synchronised workload misses it in the index |
| `Index.IndexMisses` | controllers/edgedevicelabels_controller.go:169-184 | four inputs that match and are not found: NotIn alone, an empty selector, a placement label as key, a device label `devicename` |
| `FanOut.EveryInterleaving` | controllers/edgeworkload_controller.go:312-334 | for every schedule of the goroutines' patches that runs to the end, and every set of failures, store and concatenated errors are those of the sequential loop over the whole list |
| `FanOut.StepOnCourse` | controllers/edgeworkload_controller.go:321-328 | each single patch of any goroutine keeps the remaining work headed for the sequential outcome, and uses up work |
| `FanOut.RunAllOnDevices` | controllers/edgeworkload_controller.go:156-165 | the loop over a listing does the job once on each listed device, in whatever order they were listed |
| `FanOut.RunAllErrors` | controllers/edgeworkload_controller.go:149-152 | the loop reports errors exactly when some patch of some listed device fails |
| `FanOut.JobOnItsWorkload` | controllers/edgeworkload_controller.go:167-190 | placing never removes and evicting never adds, whichever of the two patches fails; without failure entry and label are both there, or both gone |
| `FanOut.PlaceExactly` | controllers/edgeworkload_controller.go:238-260 | placing on a device: the exact new list, labels and error for each failure of the two patches; a new entry is appended as Deploying, a new label is "true" |
| `FanOut.EvictExactly` | controllers/edgeworkload_controller.go:167-190 | evicting from a device: the exact new list, labels and error for each failure of the two patches |
| `FanOut.WithoutExactly` | controllers/edgeworkload_controller.go:168-173 | exactly the entries of other workloads remain, as they were and in their order |
| `FanOut.JobKeepsOtherEntries` | controllers/edgeworkload_controller.go:167-263 | whatever fails, entries of other workloads are neither lost nor changed, phase included, nor moved |
| `FanOut.JobTouchesOneWorkload` | controllers/edgeworkload_controller.go:227-263 | which other workloads a device lists, their placement labels, all other labels and distinctness of names survive |
| `WorkloadReconciler.SplitEdgeDevices` | controllers/edgeworkload_controller.go:379-400 | for every `uint`: panics iff the size is 2^63 or more and 2^64 minus the size is at most the length; otherwise an ordered partition into min(len, k) non-empty slices whose sizes differ by at most one, larger ones first |
| `WorkloadReconciler.Merge` | controllers/edgeworkload_controller.go:350-365 | the first list followed by those of the second that the first does not name |
| `WorkloadReconciler.MergeLists` | controllers/edgeworkload_controller.go:350-365 | merging two listings lists the union, each device once |
| `WorkloadReconciler.ListingFits` | controllers/edgeworkload_controller.go:113-124 | no list of devices read from the store is longer than the store |
| `WorkloadReconciler.HasWorkload` | controllers/edgeworkload_controller.go:341-348 | finds a workload exactly if the device lists it |
| `WorkloadReconciler.HoldsExactly` | internal/common/repository/edgedevice/edgedevice.go:98-105 | the index finds a holder by its placement label, the label query by the value of a label `device-by-workload` |
| `WorkloadReconciler.EdgeWorkloadReconciler.RemoveWorkloadFromDevice` | controllers/edgeworkload_controller.go:167-190 | status patch, then label patch unless the first failed, with the resulting device and errors |
| `WorkloadReconciler.EdgeWorkloadReconciler.RemoveWorkloadFromDevices` | controllers/edgeworkload_controller.go:156-165 | the loop's store and errors; devices to keep are skipped without a patch |
| `WorkloadReconciler.EdgeWorkloadReconciler.AddWorkloadsToDevices` | controllers/edgeworkload_controller.go:228-264 | the loop's store and errors, which `PlaceExactly` gives device by device; nothing is sent for devices that have entry and label |
| `WorkloadReconciler.EdgeWorkloadReconciler.RunGoroutines` | controllers/edgeworkload_controller.go:318-333 | one goroutine a slice, with their patches in an arbitrary order: the store and concatenated errors of the sequential run over all slices, and something is sent exactly if some device needs it |
| `WorkloadReconciler.EdgeWorkloadReconciler.ExecuteConcurrent` | controllers/edgeworkload_controller.go:312-334 | for every `uint` concurrency, with goroutines stepping in an arbitrary order: the store and errors of the sequential run, unless splitting panics (exactly when, and then nothing is sent) or the concurrency is zero |
| `WorkloadReconciler.EdgeWorkloadReconciler.GetMatchingEdgeDevices` | controllers/edgeworkload_controller.go:272-288 | by device: the one named, if it exists; by selector: exactly the devices with every matchLabels value that meet every requirement; fails exactly on a failed read or a malformed requirement |
| `WorkloadReconciler.EdgeWorkloadReconciler.FinalizeRemovalOf` | controllers/edgeworkload_controller.go:121-154 | matching and holding devices lose the workload; the finalizer goes only if no patch failed |
| `WorkloadReconciler.EdgeWorkloadReconciler.PlaceAndEvictOn` | controllers/edgeworkload_controller.go:132-142 | evicting on the list read before placing has the effect of evicting on the store after placing |
| `WorkloadReconciler.EdgeWorkloadReconciler.Reconcile` | controllers/edgeworkload_controller.go:70-143 | the concurrent reconcile has the state and outcome of the sequential specification, and sends a patch exactly when it does, for every interleaving and failure set |
| `DeviceLabelsReconciler.CreateUpdatedDevice` | controllers/edgedevicelabels_controller.go:186-226 | for some order of the map iteration, the device returned is the update that the next three members characterise |
| `DeviceLabelsReconciler.UpdateIsExact` | controllers/edgedevicelabels_controller.go:186-226 | nothing is returned exactly when the names equal the matched set; otherwise the list holds exactly the matched workloads, each once: kept entries unchanged in their order, then the new ones as Deploying |
| `DeviceLabelsReconciler.UpdateOfLabels` | controllers/edgedevicelabels_controller.go:199-219 | other labels are untouched; which placement labels the update has, exactly |
| `DeviceLabelsReconciler.UpdateOfLabelValues` | controllers/edgedevicelabels_controller.go:199-219 | a new placement label has the value "true", and one that stays keeps its value |
| `DeviceLabelsReconciler.RestrictExactly` | controllers/edgedevicelabels_controller.go:199-207 | exactly the wanted entries are kept, as they were and in their order |
| `DeviceLabelsReconciler.UpdateIsStable` | controllers/edgedevicelabels_controller.go:186-226 | the same matches ask for no second update, whatever both iteration orders were; agreement of entries and labels is preserved |
| `DeviceLabelsReconciler.MatchedExactly` | controllers/edgedevicelabels_controller.go:94-111 | what index-then-filter finds, exactly: live, found by a query, and matching; with at most one way of choosing devices, matching is being selected |
| `DeviceLabelsReconciler.IndexThenFilter` | controllers/edgedevicelabels_controller.go:87-111 | with synchronised workloads, index-then-filter finds exactly what matching every live workload directly would find |
| `DeviceLabelsReconciler.VerdictsDifferExactly` | controllers/edgedevicelabels_controller.go:156-184 | for every live synchronised workload: the two reconcilers disagree about a device iff it is selected and asks for none of the workload's keys, or is not the one named, asks for a key, and matches the selector |
| `DeviceLabelsReconciler.VerdictsAgree` | controllers/edgedevicelabels_controller.go:87-111 | with one way of choosing devices, a requirement that can be looked up and no device label `devicename`, they agree |
| `DeviceLabelsReconciler.EdgeDeviceLabelsReconciler.SelectByQuery` | controllers/edgedevicelabels_controller.go:95-110 | one query adds exactly its answers to the decided workloads, and fails only for a failed request or an invalid selector |
| `DeviceLabelsReconciler.EdgeDeviceLabelsReconciler.SelectWorkloads` | controllers/edgedevicelabels_controller.go:89-111 | for any order of the queries, succeeds exactly when no query and no selector fails, and then decides every candidate |
| `DeviceLabelsReconciler.EdgeDeviceLabelsReconciler.PatchUpdated` | controllers/edgedevicelabels_controller.go:113-127 | status patch, then label patch unless the first failed |
| `DeviceLabelsReconciler.EdgeDeviceLabelsReconciler.Reconcile` | controllers/edgedevicelabels_controller.go:49-69 | the store changes as specified for some iteration order, and errors are reported exactly then |
| `PlacementRuns.WorkloadRunMoves` | controllers/edgeworkload_controller.go:70-143 | whatever fails, a workload reconcile moves each device only toward the target, in one workload only; entries of others keep phase and order |
| `PlacementRuns.WorkloadRunSettles` | controllers/edgeworkload_controller.go:121-142 | a successful reconcile leaves entry and label of each matching or found device exactly where they belong and touches no other device |
| `PlacementRuns.WorkloadRunOnWorkloads` | controllers/edgeworkload_controller.go:83-104 | a reconcile changes only its own workload, in selector labels and finalizers, and removes it only if its deletion was requested |
| `PlacementRuns.DeviceRunEffect` | controllers/edgedevicelabels_controller.go:49-128 | a device reconcile leaves the list as it was or makes it exactly the matched workloads; success means the latter; entries kept keep phase and order |
| `PlacementRuns.DeviceRunOnLabels` | controllers/edgedevicelabels_controller.go:113-127 | what a device reconcile does to the placement labels, for either client and each failing patch |
| `PlacementRuns.StepOnDevice` | controllers/edgeworkload_controller.go:167-270 | every step of either reconciler, whatever fails, keeps user labels, distinct entries, and phase and order of the entries it keeps, and appends new ones as Deploying |
| `PlacementRuns.StepKeepsAgreement` | controllers/edgeworkload_controller.go:167-264 | no step of either reconciler, whatever fails in it and whichever way the client patches, makes a settled pair disagree, or takes its label from where it is right |
| `PlacementRuns.StepKeepsSettled` | controllers/edgeworkload_controller.go:402-449 | a settled pair stays settled in every step |
| `PlacementRuns.StepKeepsBacked` | controllers/edgeworkload_controller.go:167-270 | every step keeps "each entry of the workload has its label or a selected device", with status written and label not, or the reverse; deleting a workload that has no finalizer keeps it iff all its entries have labels |
| `PlacementRuns.RunStaysWellFormed` | controllers/edgeworkload_controller.go:70-143 | every state of a run is well-formed and holds the same devices |
| `PlacementRuns.BackedThroughout` | controllers/edgedevicelabels_controller.go:114-125 | that invariant in every reachable state of both reconcilers, for each workload that is never deleted without a finalizer |
| `PlacementRuns.KeptBetween` | controllers/edgeworkload_controller.go:70-143 | along every run the target stays fixed, settled stays settled, and what agrees, or is right in entry and label, goes on so |
| `PlacementRuns.PhaseKept` | controllers/edgedevicelabels_controller.go:199-217 | in every run an entry keeps its phase for as long as its workload is listed |
| `PlacementRuns.OwnLabelsKept` | controllers/edgeworkload_controller.go:415-426 | in every run the labels of a workload without the selector prefix stay as they were |
| `PlacementRuns.WrongNeverGrows` | controllers/edgeworkload_controller.go:167-270 | along every run with any failures, of the devices for which a workload is settled those that disagree only become fewer |
| `PlacementRuns.IndexOverlooksNothing` | internal/common/indexer/indexer.go:37-50 | every device that lists a backed workload is selected by it or returned by the registered index |
| `PlacementRuns.DeviceRunAgreesExactly` | controllers/edgedevicelabels_controller.go:62-128 | a successful device reconcile is right about a workload if and only if its verdict is that of the workload reconciler, which for at most one way of choosing devices means that the index finds it when it belongs there; for a device being deleted, if and only if it was right before |
| `PlacementRuns.DeviceRunPossible` | controllers/edgedevicelabels_controller.go:49-128 | every device of every store can be reconciled, and with success when no call fails and no selector is invalid |
| `PlacementRuns.UnsettledPlacementIsDropped` | controllers/edgedevicelabels_controller.go:199-207 | a store and a successful device reconcile of it that drops a right placement, because the workload's selector labels are stale |
| `PlacementRuns.DeletingDeviceIsLeft` | controllers/edgedevicelabels_controller.go:62-64 | a consistent, settled store in which a device being deleted is left wrong by its own successful reconcile and put right by the workload's |
| `PlacementRuns.WorkloadRunCorrects` | controllers/edgeworkload_controller.go:106-142 | after a successful reconcile the devices that disagree are exactly the overlooked ones, for either lookup |
| `PlacementRuns.WorkloadRunCorrectsLabels` | controllers/edgeworkload_controller.go:106-142 | with the index, entry and label are both right on every device |
| `PlacementRuns.ReconcileAsksAgain` | controllers/edgeworkload_controller.go:70-143 | a workload reconcile asks to be called again exactly for an error or after writing the finalizer |
| `PlacementRuns.ReconcileBeforeDevices` | controllers/edgeworkload_controller.go:75-104 | state, outcome and sending of each reconcile that does not reach the devices: failed read, missing workload, missing finalizer, stale selector labels, deletion without the finalizer |
| `PlacementRuns.PlacementSucceedsExactly` | controllers/edgeworkload_controller.go:106-142 | a reconcile of a live synchronised workload succeeds if and only if the lists can be read, no patch of a matching device fails and no patch of another holder fails |
| `PlacementRuns.FailedPlacingEvictsNothing` | controllers/edgeworkload_controller.go:132-135 | if placing fails on any device, no other device is touched |
| `PlacementRuns.DeviceRunReports` | controllers/edgedevicelabels_controller.go:49-69 | a device reconcile reports success if and only if the device can be read, no query and no selector of a workload found fails, and the patches it needs go through |
| `PlacementRuns.ConvergesByWorkload` | controllers/edgeworkload_controller.go:106-142 | one successful reconcile of a workload anywhere in a run, overlooking no device, makes every device for which it is settled right about it to the end of the run unless its deletion is requested; with the index, in entry and label |
| `PlacementRuns.ConvergesByDevice` | controllers/edgedevicelabels_controller.go:62-128 | one successful reconcile, anywhere in a run, of a device that is not being deleted makes it right about each workload settled for it then, to the end of the run unless the workload's deletion is requested |
| `PlacementRuns.OneTargetForBoth` | controllers/edgeworkload_controller.go:106-142 | for each settled pair whose workload is not deleted and whose device is not being deleted: a run in which the workload's reconcile succeeds once (with the index, or overlooking no device) and a run in which the device's does end in the same placement, the target, in any order and amid any failures |
| `PlacementRuns.EachFollowsItsVerdict` | controllers/edgedevicelabels_controller.go:87-111 | in every run, each successful reconcile of a synchronised workload leaves its own verdict on the device, and each successful one of the device leaves the other; the two leave the same if and only if the pair is settled |
| `PlacementRuns.EmptySelectorIsFoughtOver` | controllers/edgeworkload_controller.go:280-286 | a consistent store with an empty selector, in which a successful workload reconcile places the workload and the next device reconcile, successful too, drops it |
| `PlacementRuns.FinalizerStep` | controllers/edgeworkload_controller.go:145-154 | when a workload loses its finalizer, the devices still listing it are exactly the overlooked ones, for either lookup |
| `PlacementRuns.DeletionSafety` | controllers/edgeworkload_controller.go:121-154 | in every reachable state a workload loses its finalizer only when no device of the store lists it, and no device lists it at any later point of the run (with the index, or with a label query that overlooks no device) |
| `PlacementRuns.RemovalCompletes` | controllers/edgeworkload_controller.go:121-154 | exactly when a reconcile of a workload being deleted reports success, exactly when it takes the finalizer off, and exactly when the workload is gone; the first two differ for a failed finalizer patch |
| `PlacementRuns.InvalidSelectorBlocksDeletion` | controllers/edgeworkload_controller.go:113-119 | in every run a workload with finalizer and invalid selector stays and keeps its finalizer, whatever is requested |
| `PlacementRuns.LabelQueryLosesPlacement` | internal/common/repository/edgedevice/edgedevice.go:98-105 | a consistent store in which the label query lets a workload go that a device still lists |
| `Quiescence.RestExactly` | controllers/edgeworkload_controller.go:106-142 | a failure-free reconcile of a synchronised workload sends no patch if and only if no device is misplaced, for either lookup |
| `Quiescence.ReconcileProgress` | controllers/edgeworkload_controller.go:83-142 | each failure-free reconcile lowers the stage (finalizer, selector labels, placement), or sends nothing at all |
| `Quiescence.AtMostThreeReconciles` | controllers/edgeworkload_controller.go:83-142 | from the fourth failure-free reconcile on nothing is sent and nothing changes; every matching device has entry and label, and with the index both are right on every device |
| `Quiescence.LabelQueryNeverRests` | internal/common/repository/edgedevice/edgedevice.go:98-105 | a live workload for which the label query returns a device it does not match sends a patch in every one of any number of reconciles |
| `Quiescence.RestsIffItCan` | controllers/edgeworkload_controller.go:83-142 | from any live start and for either lookup, reconciles from the fourth on send nothing if and only if no device is returned as a holder that is not matched (always, with the index) |
| `Quiescence.AllRightIsRest` | controllers/edgedevicelabels_controller.go:113-127 | where all workloads are live, written and right on every device, no reconcile of either kind changes anything, whichever calls fail, and a workload reconcile sends nothing |
| `Quiescence.AllRightStays` | controllers/edgedevicelabels_controller.go:113-127 | so every run without deletions stays in such a store |
| `Quiescence.DeviceRunLabels` | controllers/edgedevicelabels_controller.go:114-125 | a successful device reconcile keeps entries and labels in agreement if and only if the client leaves the patched object alone or there was nothing to change |
| `ConfigMaps.CollectionDescribes` | internal/common/utils/utils.go:49-124 | a name is collected iff referenced, without keys iff all its references are optional, and otherwise with exactly the keys of its required key references |
| `ConfigMaps.OnlyTheSetCounts` | internal/edgeapi/configmaps/configmaps.go:35-53 | neither order nor repetition of references matters, such as volumes extracted once per container |
| `ConfigMaps.ReferenceMap.AddName` | internal/common/utils/utils.go:59-69 | the in-place update of the map for a reference without key |
| `ConfigMaps.ReferenceMap.AddKey` | internal/common/utils/utils.go:108-122 | the update of a key set that the map shares with the caller changes that name's keys and no other's |
| `ConfigMaps.ExtractInfoFromEnvFrom` | internal/common/utils/utils.go:49-71 | the loop collects the references of all sources that name a configmap |
| `ConfigMaps.ExtractInfoFromVolume` | internal/common/utils/utils.go:73-95 | the loop collects the references of all volumes that name a configmap |
| `ConfigMaps.ExtractInfoFromEnv` | internal/common/utils/utils.go:97-124 | panics exactly when a variable has no source, and otherwise collects all key references |
| `ConfigMaps.CollectReferences` | internal/edgeapi/configmaps/configmaps.go:35-53 | the first loop of Fetch, over all containers and, in each, all volumes |
| `ConfigMaps.ReadAndValidateConfigMap` | internal/edgeapi/configmaps/configmaps.go:79-97 | succeeds exactly when the configmap exists with all keys, or is missing and only optional |
| `ConfigMaps.ReadableIffSatisfied` | internal/edgeapi/configmaps/configmaps.go:55-74 | all collected names can be read if and only if every single reference is satisfied |
| `ConfigMaps.PodRefsExactly` | internal/edgeapi/configmaps/configmaps.go:39-53 | the references collected are exactly those of the containers and, if there is a container, of the volumes |
| `ConfigMaps.EnvRefsExactly` | internal/edgeapi/configmaps/configmaps.go:110-115 | a key reference is optional exactly if its flag is set and true |
| `ConfigMaps.Fetch` | internal/edgeapi/configmaps/configmaps.go:32-77 | on the pod's own fields: panics iff some variable has no source; otherwise succeeds iff every envFrom, key and volume reference not marked optional finds its configmap and key and no name mentioned is unreadable, and then returns each configmap mentioned that exists, once, as stored |
| `Enrolment.SignedRequestReconciler.MarkStatus` | controllers/edgedevicesignedrequest_controller.go:117-150 | rewriting each condition in place and appending one, stored only if the patch succeeds |
| `Enrolment.SignedRequestReconciler.IsPending` | controllers/edgedevicesignedrequest_controller.go:152-163 | true for an empty history or a pending condition with status "True" |
| `Enrolment.ApiServer.Approve` | internal/common/repository/edgedevicesignedrequest/edgedevicesignedrequest.go:42-45 | approving patches one request's specification and leaves its conditions, other requests and devices |
| `Enrolment.SignedRequestReconciler.Reconcile` | controllers/edgedevicesignedrequest_controller.go:37-115 | state and result of a reconcile for every set of failing calls; any error of reading the device leads to creating it |
| `Enrolment.EdgeDeviceReconciler.RemoveRelatedEDSR` | controllers/edgedevice_controller.go:112-122 | the request of the device's name in the initial namespace is gone unless a call failed |
| `Enrolment.EdgeDeviceReconciler.Reconcile` | controllers/edgedevice_controller.go:74-91 | state and result of the deletion path for every set of failing calls |
| `Enrolment.Backend.Enrol` | internal/edgeapi/backend/k8s/backend.go:69-105 | creates, exactly when no device was seen in the namespace and no request exists yet, an unapproved request without conditions for that namespace, changes no other, and says exactly when it reports a device or an error |
| `Enrolment.MarkedIsProper` | controllers/edgedevicesignedrequest_controller.go:117-150 | after a mark exactly the last condition is "true", all others are "false", and the history of types is extended by one |
| `Enrolment.StepOnHistory` | controllers/edgedevicesignedrequest_controller.go:60-114 | conditions change only by a reconcile of that request, to pending or, beside its stored device, to approved |
| `Enrolment.RunKeepsHistoriesProper` | controllers/edgedevicesignedrequest_controller.go:117-150 | in every run exactly the last condition of every request is "true" |
| `Enrolment.HistoryGrows` | controllers/edgedevicesignedrequest_controller.go:117-150 | in every run the history of a request is only extended while the request exists |
| `Enrolment.ApprovedWasBacked` | controllers/edgedevicesignedrequest_controller.go:71-114 | for every active approved condition of every run there is the event that wrote it, and the device was in the store then |
| `Enrolment.CreatedExactly` | controllers/edgedevicesignedrequest_controller.go:81-107 | a device comes into being if and only if a reconcile of an approved request for it can create it, and then with the finalizer and exactly the request's labels |
| `Enrolment.TwoReconcilesEnrol` | controllers/edgedevicesignedrequest_controller.go:49-114 | with automatic approval two failure-free reconciles lead from any state to an approved request and its device, and replace no existing device |
| `Enrolment.RequestAsksAgain` | controllers/edgedevicesignedrequest_controller.go:41-114 | a reconcile asks to be called again exactly for an error or after approving the request itself |
| `Enrolment.RequestFailsExactly` | controllers/edgedevicesignedrequest_controller.go:41-114 | exactly when a reconcile reports an error, and that requests are then as they were |
| `Enrolment.ApprovalIsNeeded` | controllers/edgedevicesignedrequest_controller.go:49-107 | over all runs in which nobody approves a request of its name, a device never exists if and only if approval is not automatic and the store has neither the device nor an approved request for it |
| `Enrolment.QuietExactly` | controllers/edgedevicesignedrequest_controller.go:60-69 | a failure-free reconcile changes nothing if and only if the request is missing or awaits a user's approval with a condition spelt "True" |
| `Enrolment.PendingGrows` | controllers/edgedevicesignedrequest_controller.go:152-163 | n reconciles of a request that awaits approval append n pending conditions |
| `Enrolment.FinalizerDropped` | controllers/edgedevice_controller.go:86-91 | a device loses its finalizer only by its own reconcile after its deletion was requested, with no request of its name left in the initial namespace |
| `Enrolment.DeletionCompletes` | controllers/edgedevice_controller.go:112-131 | exactly when a reconcile ends the device, and exactly when it reports an error and asks again; the two differ for a failed finalizer patch |
| `Enrolment.NoResurrection` | controllers/edgedevicesignedrequest_controller.go:71-107 | with all requests of the name in the initial namespace: in every run that does not enrol the name anew, a device that is gone stays gone and no request of its name is left |
| `Enrolment.ForeignRequestResurrects` | controllers/edgedevice_controller.go:112-122 | every request of the name outside the initial namespace survives the deletion of the device and can bring it back |
| `Enrolment.NeverResurrectsExactly` | controllers/edgedevicesignedrequest_controller.go:71-107 | a device with the finalizer stays gone in all runs that do not enrol its name if and only if all requests of its name are in the initial namespace, or some other finalizer keeps it from ever going |
| `Enrolment.LifeCycle` | internal/edgeapi/backend/k8s/backend.go:69-105 | enrolling a new device, reconciling it to approval, and deleting it again gives back the very store that was there before |
| `Lora.EndNodeList.DeleteAt` | cmd/httpapi/main.go:581-583 | shifting the later elements down in the shared backing array removes one element and keeps the order of the others |
| `Lora.EndNodeList.ProcessDeviceLora` | cmd/httpapi/main.go:573-588 | the node's first entry goes and the new one is appended, in place where the array has room |
| `Lora.ListAfterRun` | cmd/httpapi/main.go:573-588 | after any sequence of messages: the entries of silent nodes in their order, then the last message of each reporting node in order of arrival, and no node twice |
| `NormalizeLabel.NormalizeLabel` | internal/common/utils/utils.go:30-47 | for every string: fails iff its lower-case form has no lower-case letter or digit; otherwise only allowed characters are left, and they form a well-formed label iff no separator stands between the legal ends and the outermost ASCII letters and digits |
| `NormalizeLabel.SliceIsTrim` | internal/common/utils/utils.go:34-42 | slicing from the first legal character to the last one found from the end is trimming both ends |
| `NormalizeLabel.KeepOne` | internal/common/utils/utils.go:43-44 | the characters that survive filtering, literally: a to z, 0 to 9, hyphen, underscore, dot |
| `NormalizeLabel.KeepConcat` | internal/common/utils/utils.go:43-44 | filtering a string is filtering its parts, so `KeepOne` fixes it for every string |
| `NormalizeLabel.WellFormedExactly` | internal/common/utils/utils.go:34-46 | the exact condition, on the lower-case string, for the result to be a well-formed label |
| `NormalizeLabel.FixedPoints` | internal/common/utils/utils.go:30-47 | the strings left unchanged are exactly the well-formed labels |
| `NormalizeLabel.NormalizeTwice` | internal/common/utils/utils.go:30-47 | normalising a result again changes nothing if and only if that condition holds |
| `NormalizeLabel.AsciiLabels` | internal/common/utils/utils.go:30-47 | for every ASCII string the condition holds, and the error is reported iff there is no letter (of either case) or digit |
| `NormalizeLabel.ForeignEnds` | internal/common/utils/utils.go:35-44 | two strings with an accented letter whose result is empty, or begins with a separator |

## Left out

- PlacementRuns.Run: two reconciles do not overlap in time, since two overlapping whole-list patches can lose an update; specifications and user labels stay fixed during a run, except that the deletion of any workload may be requested at any moment.
- PlacementRuns.OneTargetForBoth: says nothing of a workload whose deletion is requested in one of the runs, which changes its target; for a pair that is not settled and for a device being deleted it is false, and `EachFollowsItsVerdict` and `DeviceRunAgreesExactly` say exactly what happens then.
- PlacementRuns.WrongNeverGrows: counts settled pairs; for others it is false, and `DeviceRunAgreesExactly` gives the exact condition.
- WorkloadReconciler.EdgeWorkloadReconciler.Reconcile: a concurrency of 2^63 or more that makes splitting panic ends the process, and is left to the contracts of `ExecuteConcurrent` and `SplitEdgeDevices`.
- WorkloadReconciler.EdgeWorkloadReconciler.AddWorkloadsToDevices: the context is not cancelled while the loop runs; the same holds of RemoveWorkloadFromDevices.
- DeviceLabelsReconciler.EdgeDeviceLabelsReconciler.Reconcile: `updatePlaybookExecutions`, which follows it and concerns `config/` labels only, and its error are not modelled.
- NormalizeLabel.NormalizeLabel: the tables of the Unicode package are a parameter, of which only the ASCII part is fixed.
- Entities.SelectorValid: covers operators and the number of their values; the library's syntax rules for label keys and values are not part of this model.
- Index.InSync: a nil and an empty label map are one value, as in the API server; a list that is nil and one that is empty likewise.
- WorkloadReconciler.EdgeWorkloadReconciler.GetMatchingEdgeDevices: a missing device is an empty answer; a "not found" answer to a list request does not occur.
- Enrolment.EdgeDeviceReconciler.Reconcile: for a device that is not being deleted, the object bucket claim that may be created touches nothing in this model, and its result is taken as success.
- Enrolment.Backend.Enrol: the hardware features copied into the request are not modelled.
- ConfigMaps.Fetch: returns stored data; setting type and object metadata and the YAML text are not modelled, nor are the pods' other fields.
- Lora.EndNodeList.ProcessDeviceLora: the fields of a report are one value, and the status update that follows is taken to succeed; a failed one leaves the stored list as it was.
- Timestamps, messages and requeue delays.
- The EdgeConfig and PlaybookExecution reconcilers: they repeat the fan-out, and have no clean statement of creation at most once.
- The WiFi path of cmd/httpapi/main.go, which does not fill DevEui.
- The yggdrasil HTTP handler, heartbeats, storage configuration, certificates, webhooks, metrics and generated code: input and output, or copying.
