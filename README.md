# simple_k8s: clue resolution, guarded scaling and the alive guard

This project models the decision logic of `simple_k8s`, a Go helper library for
processes running inside a Kubernetes cluster, and proves properties of it in
Dafny 4.11:

- **Name resolution** (`FindDeploymentNames`, `ReadDeploymentNames`). The
  deployment names returned by a list query are matched against
  caller-ordered clue strings. Each name is bound to the first clue, in clue
  order, that it contains as a substring. The call fails naming the first
  clue, in clue order, that no name was bound to. The result is either the
  set of bound names or one (clue, name) pair per clue.
- **Guarded scale update** (`GetNumberOfPods`, `SetNumberOfPods`). The
  replica count is read, published through the caller's out-pointer, and
  updated only when it differs from the target.
- **AliveGuard**. A duration watchdog whose `failed` flag latches once and
  which sends exactly one NOT_SERVING status for its service name when it
  latches.

Modules, one per concern:

- `Wrappers` (wrappers.dfy): `Option` and `Result`, standing for Go's
  `(value, error)` returns.
- `Substrings` (substrings.dfy): `strings.Contains`.
- `ControlPlane` (control_plane.dfy): the cluster client as abstract state.
  A `Cluster` object holds one namespace's replica counts. It also holds the
  failure the next scale read and the next scale update will meet, and counts
  the read and update requests issued. `Int32Cell` stands for the `*int32`
  out-pointer.
- `DeploymentNames` (deployment_names.dfy): the two resolution methods. Both
  are written as the source's nested loops with `break`, over sets and a
  map. Each is proved equal to a recursive specification function
  (`FindResult`, `ReadResult`), and the lemmas state what those functions
  mean.
- `Scaling` (scaling.dfy): `GetNumberOfPods` and `SetNumberOfPods` on a
  `Cluster`.
- `Liveness` (liveness.dfy): the health server, reduced to a status map and
  a log of the status updates it received. `AliveGuard` is a class with the
  latch invariant `Valid()`. A pure `Step`/`Run` model of the latch carries
  the all-sequences lemmas. `CheckTimeDuration` is proved to follow `Step`.

Environment inputs become parameters or state:

- The list query's outcome is an input `Result<seq<string>, Error>`.
- The elapsed time `time.Since(startTime)` is an input `Duration`: 64-bit
  nanoseconds, as Go's `time.Duration`.
- The process-wide health server is passed to `GetAppAliveGuard` rather than
  read from a global.

Consequences of the code that are easy to miss:

- Resolution is first match. It does not succeed merely because every clue
  is a substring of some listed name. A clue contained only in names that an
  earlier clue already claimed is reported missing (`ShadowedClueIsMissing`).
- Containment is anywhere in the name. Clues `a`, `c` against `svc-a-1`,
  `svc-b-2` succeed, because `c` occurs in `svc` and so `svc-b-2` binds `c`
  (`ClueMayMatchAnywhereInName`). A clue that occurs in no name, such as `d`,
  makes the call fail (`ReportsMissingService`).
- With several names binding one clue, `ReadDeploymentNames` keeps the last
  one in list order, because the map entry is overwritten
  (`BindingsKeepLast`).

## Model

| member | source | states |
|---|---|---|
| Substrings.ContainsIff | simple_k8s.go:74 | `Contains(s, sub)` holds iff `sub` occurs at some position of `s`, as Go's `strings.Contains` promises |
| ControlPlane.Cluster.GetScale | simple_k8s.go:143-144 | one read request is counted; the result is the injected failure, `NotFound` for an unknown deployment, or its current replica count |
| ControlPlane.Cluster.UpdateScale | simple_k8s.go:171-173 | one update request is counted; on success exactly this deployment's count becomes the target and the target is returned; on failure nothing changes |
| DeploymentNames.FirstClue | simple_k8s.go:73-78 | the inner scan stops at the first clue, in clue order, that the name contains, and no earlier clue is contained; `None` means the name contains no clue |
| DeploymentNames.FirstMissing | simple_k8s.go:83-87 | the check scan stops at the first clue, in clue order, that is not found, and every earlier clue is found; `None` means all are found |
| DeploymentNames.FindDeploymentNames | simple_k8s.go:46-90 | a failed list query is returned unchanged; otherwise the nested loops and the check loop compute exactly `FindResult` |
| DeploymentNames.ReadDeploymentNames | simple_k8s.go:92-138 | a failed list query is returned unchanged; otherwise the loops filling the clue-to-name map, the check loop and the map to pairs compute exactly `ReadResult` |
| DeploymentNames.ClueOfIsFirstContained | simple_k8s.go:72-79 | a name binds a clue iff it contains some clue, and the clue bound is one it contains with no earlier clue contained |
| DeploymentNames.MatchedIff | simple_k8s.go:69-80 | a name is in the collected set iff it is listed and contains at least one clue; duplicate names appear once |
| DeploymentNames.FoundIff | simple_k8s.go:70-77 | a clue is marked found iff some listed name binds it as its first contained clue |
| DeploymentNames.BindingsKeepLast | simple_k8s.go:111-121 | the map has a key exactly for the found clues; the name stored for a clue is a listed name binding it, and no later listed name binds it |
| DeploymentNames.BindingsKeys | simple_k8s.go:111-121 | the key set of the clue-to-name map equals the set of found clues, so both forms run the same check |
| DeploymentNames.ListFailurePropagates | simple_k8s.go:61-63 | a failed list query is the result of both forms, with no matching done |
| DeploymentNames.FindSucceedsIff | simple_k8s.go:82-89 | `FindDeploymentNames` succeeds iff every clue is bound by some listed name |
| DeploymentNames.FindSuccessIsMatchedNames | simple_k8s.go:69-89 | on success the returned set is exactly the listed names that contain some clue |
| DeploymentNames.FindReportsFirstUnbound | simple_k8s.go:83-87 | on failure the error is `ClueNotFound(clues[i])` where no name binds `clues[i]` and every earlier clue is bound |
| DeploymentNames.ReadAgreesWithFind | simple_k8s.go:111-137 | both forms succeed together and fail with the same error; every name in the pairs is in the set the other form returns |
| DeploymentNames.ReadPairsFollowClues | simple_k8s.go:124-137 | on success there is one pair per clue in clue order; pair `k` is `clues[k]` with a listed name containing it that binds it, the last such name in list order |
| DeploymentNames.ResolvesTwoServices | simple_k8s.go:46-138 | clues `a`, `b` against `svc-a-1`, `svc-b-2` give the set of both names and the pairs `(a, svc-a-1)`, `(b, svc-b-2)` |
| DeploymentNames.ClueMayMatchAnywhereInName | simple_k8s.go:74 | clues `a`, `c` against `svc-a-1`, `svc-b-2` succeed, since `c` occurs in `svc-b-2` |
| DeploymentNames.ReportsMissingService | simple_k8s.go:124-128 | clues `a`, `d` against `svc-a-1`, `svc-b-2` fail with `ClueNotFound("d")` in both forms |
| DeploymentNames.ShadowedClueIsMissing | simple_k8s.go:72-80 | `xab` contains `ab`, yet with clues `a`, `ab` it binds only `a`, so both forms fail naming `ab` |
| Scaling.GetNumberOfPods | simple_k8s.go:140-152 | one read; on success the deployment's replica count and no error; on failure the control plane's error and the zero count |
| Scaling.SetNumberOfPods | simple_k8s.go:154-181 | exactly one read. A failed read returns `(false, err)` with the cell and cluster untouched. A count equal to the target returns `(false, nil)` with the value read in the cell and no update. Otherwise exactly one update: on failure `(false, err)` with the value read in the cell, on success `(true, nil)` with the target in the cell and in the cluster. No other deployment changes |
| Scaling.RepeatedScaleUpdatesOnce | simple_k8s.go:164-167 | with no control-plane failure, a second scale to the target the first call reached reports no change and issues no update: one update at most for the pair, none if the count was already the target |
| Scaling.OffByOneTargetDiffers | simple_k8s_test.go:72-95 | the `int32` targets `numPods + 1` and `numPods - 1`, wrapped as Go wraps them, always differ from `numPods`, so `SetNumberOfPods` takes its update branch for them |
| Liveness.HealthServer.SetServingStatus | alive_guard.go:38 | the status for that one service name is set, and one report is appended to the server's log |
| Liveness.AliveGuard.constructor | alive_guard.go:19-26 | `NewAliveGuard`: not failed, nothing sent, with the given server, threshold and service name |
| Liveness.AliveGuard.CheckTimeDuration | alive_guard.go:28-42 | the latch invariant is kept and `failed` never goes back to false. The guard trips only when elapsed exceeds the threshold strictly and it was not failed. A trip appends exactly one NOT_SERVING report for its own name and sets that name's status only. Any other call changes neither the log nor any status |
| Liveness.AtMostOneReport | alive_guard.go:28-42 | over any sequence of checks at most one report is made. One is made iff the guard started un-failed and some check overran the threshold. The guard ends failed iff it started failed or some check overran |
| Liveness.FailedIsInert | alive_guard.go:29-31 | once failed, any further sequence of checks keeps it failed and reports nothing |
| Liveness.WithinBudgetIsInert | alive_guard.go:33 | checks whose elapsed time never exceeds the threshold leave the latch as it was and report nothing |
| Liveness.WatchdogTripsOnce | alive_guard.go:28-42 | threshold 200ms, checks at 50ms, 250ms, 400ms: nothing, then the trip with one report, then nothing; one report in all |
| Liveness.GetAppAliveGuard | alive_guard.go:44-46 | a fresh, un-failed guard with the given threshold, service name `""`, on the process-wide health server |

## Left out

- `NewKubernetesClient`: loading the cluster configuration is a call into client-go; it is not part of this model.
- `CreateHealthyFile` and `RemoveHealthyFile`: file-system I/O.
- `TerminationHandler`, `TerminationHandlerCont`, `SetTerminationHandler`, `SetTerminationHandlerWithContinuation`: OS signals, a goroutine, sleeping and `os.Exit`.
- `EnableLivelinessCheck` and `DisableLivelinessCheck` (health_check.go): they start the gRPC server on port 9666 and set the `alive` status. They are network wrappers, so the health server appears only as the abstract `HealthServer`.
- The Kubernetes list, get-scale and update-scale calls are abstract state (`Cluster`) with injectable failures. The namespace and the label selector are not modelled: one `Cluster` object is one namespace, and the listed names are an input.
- The mutex in `CheckTimeDuration` and the race freedom its double-checked lock gives under concurrent callers. Calls are modelled one after another.
- Concurrent changes to a deployment's scale by other actors between the read and the update are not modelled.
- The treap, `Slist` and `FunctionalLib` containers are Dafny `set`, `seq` and map comprehension values. Go's type assertion `clue.(string)`, which panics on a non-string clue, is ruled out by the type `seq<string>`.
- The text of a missing-clue error is `ControlPlane.ClueNotFoundMessage`. Results carry the structured `ClueNotFound(clue)` instead of the string.
