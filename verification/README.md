# Servarr operator: a verified model

The Servarr operator is a Kubernetes controller. Most of what it decides is ordinary logic wrapped
around remote calls that may fail: it registers apps with each other, checks deployments for drift,
guards deletions with finalizers, schedules, prunes and restores backups, and talks to Transmission
through a session handshake. This project models that logic in Dafny and proves what it promises.

Every remote call has one of three fates, chosen by the environment: acknowledged, not applied, or
applied although reported as failed. The other side of each call (a registry, an API object, a list of
backups, a Transmission server, a clock) is modelled explicitly. Code that changes remote state in
loops is a method proved against a specification function; lemmas then state what that function
guarantees for all inputs, all failure patterns and all runs.

| file | what it models |
|---|---|
| Common.dfy, Json.dfy, Discovery.dfy, ProwlarrTypes.dfy | shared vocabulary |
| ProwlarrSync.dfy, ProwlarrConvergence.dfy | registering discovered apps in Prowlarr |
| SeerrSync.dfy, SeerrConvergence.dfy | registering Sonarr and Radarr servers in Seerr |
| CrossAppSync.dfy | list-then-register into Maintainerr, Cleanuparr and Houndarr |
| Drift.dfy, DriftRelation.dfy | the containment check on pod templates and its report |
| Finalizers.dfy | the cleanup finalizers of an app |
| BackupSchedule.dfy, BackupRetention.dfy, BackupRestore.dfy | backups over time, pruning, restoring |
| TransmissionRpc.dfy, TransmissionClient.dfy | the session handshake, interleaved and as code |
| EventNote.dfy | cutting an event note on a character boundary |
| ProwlarrConvert.dfy | the operator's record and the SDK's |

Results that show where the code falls short of a plain promise are stated with their exact condition:

- when every call is applied, Prowlarr passes fall silent exactly when no two discovered *arr apps share
  a URL (`ConvergesIffDistinctUrls`); when two do, every pass issues a call again, whatever fails
  (`SharedUrlIsNeverSilent`);
- when every call is applied, a Seerr pass settles every app exactly when no two apps of a kind share
  host and port (`PassReachesSyncIff`); when two name one Service, one of them stays unsettled
  (`SharedPlaceLeavesUnsettled`);
- when every call is applied, a Seerr pass with auto-removal leaves exactly the discovered places if and
  only if no listed entry has a port that the cast to 32 bits turns into a discovered one
  (`ExactPlacesIff`, `DisguisedPortSurvives`);
- one reconcile leaves both cleanup finalizers installed exactly when they were already, or one was and
  the patch for the other is applied (`OneReconcileSufficesIff`); each reconcile installs at most one
  (`RunInstallsMissing`);
- the containment relation is transitive exactly from trees without zero-valued fields
  (`TransitiveIffNoZeroField`);
- when every delete is applied, pruning keeps the retention limit exactly when the 32-bit length does
  not hide the excess (`LimitKeptIff`);
- an instant that has started a backup starts another exactly when the first one's status was not
  written (`LostStatusRepeatsAttempt`), and a backup starts without any instant exactly when no time is
  recorded (`ResetStartsAttempt`); there is no other way (`AttemptsBounded`);
- a restored app whose annotation is gone is at zero replicas exactly when the restore that landed lost
  its scale-up and no Deployment has been applied since, in that reconcile or a later one
  (`LeftDownIff`);
- a Transmission call can be finally refused for its session id although the server keeps its id,
  exactly when two stale ids are about (`RefusedIffTwoStaleIds`), and one rotation can bring that about
  (`OldIdRefusesAnotherCall`).

The documentation (docs/backup-restore.md:161-169) calls `backupCount` the number of backups stored in
the app. The code reports at most the retention count, and 0 when the list cannot be read. The model
follows the code; `CountIsStoredIff` and `CountIsStoredAfterPruneIff` say when the two agree.

## Model

| member | source | states |
|---|---|---|
| Discovery.UrlNamesAddress | crates/servarr-operator/src/controller.rs:2817-2823 | a base URL is the scheme, the host, and text that reads as the port |
| Discovery.SameUrlIffSameAddress | crates/servarr-operator/src/controller.rs:2817-2823 | two apps have one URL exactly when they have one host and one port |
| ProwlarrTypes.BaseUrlOfFirst | crates/servarr-operator/src/controller.rs:2951-2956 | the first field called "baseUrl" decides the URL of an application |
| ProwlarrSync.Registry.Add | crates/servarr-api/src/prowlarr.rs:149-156 | an applied add appends the record under a fresh id; the caller sees success only when the call was acknowledged |
| ProwlarrSync.Registry.Update | crates/servarr-api/src/prowlarr.rs:158-174 | an applied update replaces the record in place |
| ProwlarrSync.Registry.Delete | crates/servarr-api/src/prowlarr.rs:176-181 | an applied delete takes the record out and keeps the order of the others |
| ProwlarrSync.SyncProwlarrApps | crates/servarr-operator/src/controller.rs:2893-3064 | the pass with its URL map, its add-or-update loop and its removal loop ends in the state of the specification `Pass`; a failed sweep or listing changes nothing |
| ProwlarrConvergence.PassLowersPotential | crates/servarr-operator/src/controller.rs:2947-3049 | for distinct *arr URLs and any failures a pass issues exactly as many calls as the potential (missing, misnamed and stale applications), and lowers the potential by exactly the calls that took effect |
| ProwlarrConvergence.PotentialZeroIffInSync | crates/servarr-operator/src/controller.rs:2967-3049 | the potential is zero exactly when every discovered *arr app is registered last at its URL under its name and nothing stale is left |
| ProwlarrConvergence.SilentIffInSync | crates/servarr-operator/src/controller.rs:3005-3042 | from any registry, any discovery and any failures, a pass issues no call if and only if the registry is in sync, and then changes nothing |
| ProwlarrConvergence.ConvergesIffDistinctUrls | crates/servarr-operator/src/controller.rs:2947-3049 | with unique app names and all calls applied, the second pass is silent, and the first reached sync, if and only if the *arr URLs are distinct |
| ProwlarrConvergence.SharedUrlIsNeverSilent | crates/servarr-operator/src/controller.rs:3005-3030 | when two *arr apps share a URL, every pass, from every registry and under any failures, issues a call |
| ProwlarrConvergence.SharedServiceIsNeverSilent | crates/servarr-operator/src/controller.rs:2872-2886 | two apps whose specs name one Service are such a case |
| ProwlarrConvergence.RunPaysOffPotential | crates/servarr-operator/src/controller.rs:2947-3049 | over any number of passes and any failures the effective calls add up to the fall of the potential |
| ProwlarrConvergence.PassKeeps | crates/servarr-operator/src/controller.rs:3033-3049 | under any failures an application that is not stale keeps its id and URL, one without a non-empty URL is unchanged, and without auto-removal nothing goes |
| ProwlarrConvergence.DiscoveredUrlIsKept | crates/servarr-operator/src/controller.rs:2969-3049 | under any failures an application at the URL of a discovered app of any type, Seerr and Tautulli included, keeps its id and URL |
| ProwlarrConvergence.UndiscoveredUrlIsRemoved | crates/servarr-operator/src/controller.rs:3033-3049 | with auto-removal and all calls applied, an application goes whose non-empty URL no discovered app has |
| ProwlarrConvergence.PassAdds | crates/servarr-operator/src/controller.rs:2986-3030 | whatever is registered afterwards was registered before, or has the name, URL, key, implementation and matching contract of a discovered *arr app |
| ProwlarrConvergence.ArrAppsAreRegistered | crates/servarr-operator/src/controller.rs:2971-3030 | with all calls applied, every discovered Sonarr, Radarr and Lidarr app ends up registered, also when URLs are shared |
| ProwlarrConvergence.LastByUrlIsLast | crates/servarr-operator/src/controller.rs:2946-2958 | of the listed applications with one URL the last one counts |
| SeerrSync.SyncSeerrServers | crates/servarr-operator/src/controller.rs:3083-3335 | one sweep over the discovered apps and the removal loops leave each table in the state of its own `Pass`, in which the other table does not occur |
| SeerrConvergence.PassIgnoresOthers | crates/servarr-operator/src/controller.rs:3156-3286 | a table's outcome depends only on the discovered apps of its own kind |
| SeerrConvergence.PassKeeps | crates/servarr-operator/src/controller.rs:3288-3310 | under any failures an entry whose cast key is discovered keeps its id and place, and without auto-removal nothing goes |
| SeerrConvergence.PassAdds | crates/servarr-operator/src/controller.rs:3156-3264 | whatever is new in a table describes a discovered app of its kind: host, port, key, isDefault = not is4k, and from the configuration for its kind the standard profile, or for a 4k app the 4k one, with the defaults 0, empty, season folders on and "released" |
| SeerrConvergence.SettingsDescribe | crates/servarr-operator/src/controller.rs:3160-3202 | the record for an app has the values that the configuration gives for its kind and instance |
| SeerrConvergence.FindFirstIsFirst | crates/servarr-operator/src/controller.rs:3205-3208 | of the listed entries at one place the first one counts |
| SeerrConvergence.PlaceHoldsWinner | crates/servarr-operator/src/controller.rs:3150-3310 | with all calls applied, the first entry at each discovered place is the record of the last app there if the place was listed, and of the first app there otherwise |
| SeerrConvergence.PassSettlesIff | crates/servarr-operator/src/controller.rs:3204-3220 | so an app is settled exactly when that record is its own, as it is when no other app of the kind shares its place |
| SeerrConvergence.ExactPlacesIff | crates/servarr-operator/src/controller.rs:3150-3310 | with auto-removal and all calls applied, the places left are exactly the discovered ones if and only if no listed port is disguised by its cast, also when apps share a place |
| SeerrConvergence.DisguisedPortSurvives | crates/servarr-operator/src/controller.rs:3288-3300 | a listed port 8989.5 is one: its entry outlives the pass beside a discovered 8989 |
| SeerrConvergence.PassReachesSyncIff | crates/servarr-operator/src/controller.rs:3150-3310 | with all calls applied and unique app names, every discovered app is settled and nothing stale left if and only if no two apps of the kind share host and port |
| SeerrConvergence.SharedPlaceLeavesUnsettled | crates/servarr-operator/src/controller.rs:3204-3220 | when two do, the pass leaves one of them with another app's name at its place |
| SeerrConvergence.InSyncPassRewrites | crates/servarr-operator/src/controller.rs:3204-3220 | a pass over a table in sync sends one update per discovered app of the kind and changes no entry, whatever becomes of the updates |
| CrossAppSync.SyncCrossApp | crates/servarr-operator/src/controller.rs:3488-3527 | both kinds are swept independently; the counts hold one entry per kind with an acknowledged registration, and all failures |
| CrossAppSync.SweepConserves | crates/servarr-operator/src/controller.rs:3493-3526 | registered + failed + already present = discovered of the kind; a failed listing is one failure, no call and no change |
| CrossAppSync.SweepRegistersExactly | crates/servarr-operator/src/controller.rs:3503-3524 | every app of the kind that is not listed is sent, in order; the applied calls add their instance, the acknowledged ones count as registered and all others as failures |
| CrossAppSync.AddedDescribesDiscovered | crates/servarr-operator/src/controller.rs:3505-3514 | every added instance carries name, URL and key of a discovered app of the kind whose name was not listed |
| CrossAppSync.RunKeepsDuplicateFree | crates/servarr-operator/src/controller.rs:3475-3527 | over any run of passes with changing discoveries and any fates a registry without duplicates stays so |
| CrossAppSync.DuplicateFreeIff | crates/servarr-api/src/cross_app_sync.rs:37-50 | since registering does not de-duplicate, a fully applied pass stays free of duplicates if and only if no two new names are equal |
| Drift.DiffEmptyIffSubset | crates/servarr-operator/src/controller.rs:4129-4187 | for all JSON trees the diff is empty if and only if the containment check accepts |
| Drift.DiffReports | crates/servarr-operator/src/controller.rs:4130-4165 | a path is reported exactly when it leads through objects and arrays of equal length to the place where the trees differ, or to a missing field that is not a zero value |
| Drift.OneRepair | crates/servarr-operator/src/controller.rs:4130-4165 | writing the desired value at one reported path removes exactly that report |
| Drift.RepairIsComplete | crates/servarr-operator/src/controller.rs:4130-4187 | repairing all reported paths in any order gives a tree the check accepts |
| Drift.ReportsArePrefixFree | crates/servarr-operator/src/controller.rs:4130-4165 | no reported path leads through another |
| Drift.RepairsCommute | crates/servarr-operator/src/controller.rs:4130-4165 | two repairs give the same tree in either order |
| Drift.MissingFieldToleratedIffZero | crates/servarr-operator/src/controller.rs:4117-4187 | a field missing from the actual object is tolerated exactly when it is null, false, 0, 0.0 or the empty string, and is the one report otherwise |
| DriftRelation.SubsetIffArises | crates/servarr-operator/src/controller.rs:4167-4187 | the check accepts exactly the trees that arise from the desired one by omitting zero-valued fields and editing fields it lacks, at any depth |
| DriftRelation.TransitiveIffNoZeroField | crates/servarr-operator/src/controller.rs:4117-4187 | containment is transitive from a tree if and only if no object in it has a zero-valued field |
| Drift.SubsetReflexive | crates/servarr-operator/src/controller.rs:4171-4187 | every tree contains itself |
| Finalizers.Retain | crates/servarr-operator/src/controller.rs:388-400 | the loop that keeps the finalizers whose cleanup did not succeed, in order |
| Finalizers.ReconcileDeleting | crates/servarr-operator/src/controller.rs:388-428 | the patch sent only for a changed list, and the error for a finalizer still pending |
| Finalizers.DeleteStep | crates/servarr-operator/src/controller.rs:388-428 | a cleanup finalizer goes only if its own cleanup succeeded; other finalizers keep values and order; an unchanged list is not patched; CleanupPending exactly when a cleanup finalizer remains |
| Finalizers.DeleteDrops | crates/servarr-operator/src/controller.rs:402-428 | one patch is sent exactly when the list holds a finalizer whose cleanup succeeded; the reconcile fails exactly when that patch is not acknowledged; when it is applied exactly those finalizers are gone |
| Finalizers.DeletingRunIsSafe | crates/servarr-operator/src/controller.rs:360-429 | over every run and any patch failures, in each of its reconciles: a finalizer leaves only with the success of its own cleanup in that reconcile, others keep values and order, no patch means no change and a patch means a finalizer was cleaned, and CleanupPending is returned exactly when a cleanup finalizer remains |
| Finalizers.GoneMeansCleaned | crates/servarr-operator/src/controller.rs:360-429 | a finalizer gone after a run left in one reconcile of it, whose own cleanup for it succeeded |
| Finalizers.CleanedIsGone | crates/servarr-operator/src/controller.rs:360-429 | over a run, a finalizer whose cleanup succeeds in a reconcile whose patch is applied is gone afterwards |
| Finalizers.ReconcileLiving | crates/servarr-operator/src/controller.rs:431-467 | both merge patches are built from the one snapshot taken at the start |
| Finalizers.LivingRunIsSafe | crates/servarr-operator/src/controller.rs:431-467 | over every run with any syncs and failures no finalizer is lost, reordered or doubled |
| Finalizers.KeepAddsWanted | crates/servarr-operator/src/controller.rs:431-467 | only finalizers of the syncs found are added; none wanted means no patch, one wanted means one patch that appends it, and a patch not acknowledged fails the reconcile |
| Finalizers.KeepLowersMissing | crates/servarr-operator/src/controller.rs:431-467 | with both syncs and any failures, one reconcile installs one missing finalizer if its first patch is applied, and none otherwise |
| Finalizers.RunInstallsMissing | crates/servarr-operator/src/controller.rs:431-467 | over any number of reconciles and any failures, what is missing and the effective reconciles add up to what was missing at the start |
| Finalizers.OneReconcileSufficesIff | crates/servarr-operator/src/controller.rs:437-467 | with both syncs and any failures, one reconcile leaves both finalizers installed if and only if both were there, or one was and the first patch is applied |
| Finalizers.TwoReconcilesSuffice | crates/servarr-operator/src/controller.rs:431-467 | when the first patch of each is applied, acknowledged or not, two reconciles always install both exactly once and a third sends no patch |
| Finalizers.OneReconcileLosesProwlarr | crates/servarr-operator/src/controller.rs:439-466 | from a list with neither, the second patch takes away what the first added exactly when the first was acknowledged |
| Finalizers.EqualIffSameText | crates/servarr-operator/src/controller.rs:54-63 | comparing the model's finalizers is comparing the strings the API server holds |
| BackupSchedule.DueIffInstantPassed | crates/servarr-operator/src/controller.rs:2409-2412 | looking at the first instant after the recorded time only, a backup is due exactly when some instant has passed |
| BackupSchedule.InstantsUsedOnce | crates/servarr-operator/src/controller.rs:2390-2417 | over any run the instants used up by recorded attempts are instants of the schedule, strictly increasing, despite truncation to whole seconds |
| BackupSchedule.AttemptsBounded | crates/servarr-operator/src/controller.rs:2318-2556 | attempts never exceed the instants that passed plus the attempts without a recorded time plus those whose status was lost |
| BackupSchedule.LostStatusRepeatsAttempt | crates/servarr-operator/src/controller.rs:2409-2417 | from any status, an instant that started a backup starts another at the next reconcile that can create one, if and only if the first one's status was not written |
| BackupSchedule.ResetStartsAttempt | crates/servarr-operator/src/controller.rs:2336-2443 | with no instant passed, a reconcile that can create a backup starts one if and only if the one before stored a status without a recorded time, or stored none and had none |
| BackupSchedule.AttemptCatchesUp | crates/servarr-operator/src/controller.rs:2390-2417 | with a recorded time an attempt is made exactly when an instant has passed, and the time recorded then covers every instant so far |
| BackupSchedule.AttemptsIff | crates/servarr-operator/src/controller.rs:2318-2444 | a backup is attempted exactly when nothing hinders it and no time is recorded or an instant has passed since |
| BackupSchedule.AttemptRecordsClock | crates/servarr-operator/src/controller.rs:2522-2553 | a stored attempt records the clock at its end cut to whole seconds, unless it failed with no time recorded before |
| BackupSchedule.NextAttemptIff | crates/servarr-operator/src/controller.rs:4111-4115 | after a recorded attempt the next one comes exactly when an instant lies between the two clock readings, so cutting to seconds neither skips nor repeats an instant |
| BackupSchedule.StatusReports | crates/servarr-operator/src/controller.rs:2336-2553 | the result and count in the status that each outcome returns |
| BackupRetention.PruneAndCount | crates/servarr-operator/src/controller.rs:2497-2532 | the prune loop over the sorted list, skipped when the list fails; the reported count never exceeds the retention |
| BackupRetention.CountIsCapped | crates/servarr-operator/src/controller.rs:2525-2531 | below 2^32 the reported count is the lesser of the number stored and the retention, or 0 when the second listing failed |
| BackupRetention.EachDeleteDecides | crates/servarr-operator/src/controller.rs:2506-2510 | the k-th doomed backup is gone exactly when the k-th delete is applied, whatever happens to the others |
| BackupRetention.CountIsStoredIff | crates/servarr-operator/src/controller.rs:2525-2531 | the reported count is the number stored exactly when nothing is stored, or the second listing worked and found no more than the limit |
| BackupRetention.CountIsStoredAfterPruneIff | crates/servarr-operator/src/controller.rs:2497-2532 | with every delete applied and the second listing working, the count is right exactly when no prune was needed or it could do its work |
| BackupRetention.SortByTimeSorts | crates/servarr-operator/src/controller.rs:2503-2504 | the sort orders by time and permutes |
| BackupRetention.SortIsStable | crates/servarr-operator/src/controller.rs:2503-2504 | backups of equal time keep their order |
| BackupRetention.PruneKeepsNewest | crates/servarr-operator/src/controller.rs:2500-2511 | under any delete failures the newest `retention` backups survive and whatever goes is not newer than any of them |
| BackupRetention.PruneWithoutFailures | crates/servarr-operator/src/controller.rs:2500-2511 | when every delete is applied exactly `retention` remain of a longer list and no survivor is older than a deleted backup |
| BackupRetention.LimitKeptIff | crates/servarr-operator/src/controller.rs:2501-2502 | the limit is kept if and only if the list is short or its length cast to 32 bits still exceeds the retention; always below 2^32 |
| BackupRestore.MaybeRestoreBackup | crates/servarr-operator/src/controller.rs:2570-2703 | the calls made, the result, the annotation and the replicas left, for every environment |
| BackupRestore.ScaleDownAndRestore | crates/servarr-operator/src/controller.rs:2616-2663 | no restore call unless the scale-down was acknowledged and a client could be had |
| BackupRestore.WaitForPods | crates/servarr-operator/src/controller.rs:2632-2651 | polls until the first answer without ready replicas or failed answer, and at most 12 times |
| BackupRestore.PollsUntilStop | crates/servarr-operator/src/controller.rs:2632-2651 | no poll before the last one stops, and the last one stops unless all polls were made |
| BackupRestore.CallsAreSafe | crates/servarr-operator/src/controller.rs:2570-2700 | one scale-down and one scale-up for every attempt; 1 to 12 polls exactly after an acknowledged scale-down; one restore call, for the backup asked for, exactly if moreover a client could be had; and the annotation patch exactly when that call is acknowledged |
| BackupRestore.OutcomeTells | crates/servarr-operator/src/controller.rs:2583-2702 | each result, success or the first failure, comes from exactly one environment |
| BackupRestore.RestoreLeaves | crates/servarr-operator/src/controller.rs:2664-2702 | when the annotation goes and how many replicas a restore leaves, by its environment |
| BackupRestore.CallsAreOrdered | crates/servarr-operator/src/controller.rs:2616-2700 | scale down, restore, scale up and removal come in this order |
| BackupRestore.ReconcileRestore | crates/servarr-operator/src/controller.rs:470-664 | a restore is tried only while the annotation is there; the same reconcile goes on to apply the Deployment, if it gets there |
| BackupRestore.AnnotatedIffNotLanded | crates/servarr-operator/src/controller.rs:2676-2702 | over any run, whatever the annotation asks for meanwhile, it remains exactly while no removal patch was applied |
| BackupRestore.RetriesUntilLanded | crates/servarr-operator/src/controller.rs:2676-2702 | one more reconcile makes a whole attempt until an annotation patch lands, and only applies the Deployment from then on |
| BackupRestore.LeftDownIff | crates/servarr-operator/src/controller.rs:2664-2702 | a run ends with the annotation gone and the app at zero replicas exactly when the visit whose patch landed first lost its scale-up and no Deployment was applied from that visit on |
| TransmissionRpc.AtMostOnce | crates/servarr-api/src/transmission.rs:292-346 | over every interleaving of any number of calls and rotations: at most two requests, at most one run of the method, success means exactly one |
| TransmissionRpc.ReplyDecides | crates/servarr-api/src/transmission.rs:300-337 | in any interleaving, what a served and read answer makes of the call: its result, a new id to store, or a second request |
| TransmissionRpc.RefusedIffTwoStaleIds | crates/servarr-api/src/transmission.rs:300-315 | while the server keeps its id, a call that begins can be finally refused for its session id if and only if two stale ids or more are about: in the cache, or in the hands of running calls that will store them |
| TransmissionRpc.NeverRefused | crates/servarr-api/src/transmission.rs:300-315 | with at most one, no interleaving of any number of calls refuses it |
| TransmissionRpc.NeverRefusedAlone | crates/servarr-api/src/transmission.rs:300-315 | a call running alone is never finally refused for its session id |
| TransmissionRpc.OldIdRefusesAnotherCall | crates/servarr-api/src/transmission.rs:303-311 | from two calls that have not begun, one rotation leads to a state in which the other call, beginning after it, is refused without another rotation |
| TransmissionClient.Client.SendRpc | crates/servarr-api/src/transmission.rs:339-345 | a request carries the given body and the cached id, if there is one |
| TransmissionClient.Client.RpcCall | crates/servarr-api/src/transmission.rs:292-315 | the result, the cache and the counts of one call are those of the specification `SoloCall`; every request posted or run has the body of the call |
| TransmissionClient.SoloCallIsARun | crates/servarr-api/src/transmission.rs:292-346 | every call made by the code is a run of the interleaved handshake from beginning to end |
| TransmissionClient.SoloCallAtMostOnce | crates/servarr-api/src/transmission.rs:292-337 | one or two requests, at most one run, success only after exactly one |
| TransmissionClient.SoloCallTells | crates/servarr-api/src/transmission.rs:292-337 | on the exchanges: success exactly when the last request carried the server's id and the method succeeded, a failed operation exactly when the method rejected it, an error status exactly as answered, a failed request exactly when request or reply was lost |
| TransmissionClient.SoloCallRuns | crates/servarr-api/src/transmission.rs:300-315 | the method runs once for each request that reaches the server with its id and is let through |
| TransmissionClient.Client.TorrentRemove | crates/servarr-api/src/transmission.rs:256-274 | an empty set posts nothing and changes nothing; otherwise the result is that of the call, and every request posted or run names exactly the given torrents, never all of them |
| EventNote.ClampEventNote | crates/servarr-operator/src/controller.rs:215-240 | the back-off loop returns the clamped form, valid UTF-8 of at most 1024 bytes, and backs off at most three bytes |
| EventNote.BoundaryIffPrefixValid | crates/servarr-operator/src/controller.rs:228-238 | in valid UTF-8 the byte test for a boundary finds exactly the valid prefixes |
| EventNote.BoundaryNearby | crates/servarr-operator/src/controller.rs:235-238 | a boundary lies at most three bytes back |
| EventNote.EncodedIsValid | crates/servarr-operator/src/controller.rs:215-220 | the encoding of every code point that is not a surrogate, by RFC 3629, is one character of the model |
| EventNote.ClampedForm | crates/servarr-operator/src/controller.rs:221-240 | the clamped form is unique, valid, of 1021 to 1024 bytes when cut, begins like the note and is its own clamped form |
| ProwlarrConvert.RoundTripIffCanonical | crates/servarr-api/src/prowlarr.rs:53-124 | a trip through the SDK changes nothing if and only if id and tags fit in 32 bits, all fields are named and the sync level is known |
| ProwlarrConvert.RoundTripIsCanonical | crates/servarr-api/src/prowlarr.rs:53-124 | for every record one trip reaches a fixed point |
| ProwlarrConvert.ReadIsCanonicalIffLevelKnown | crates/servarr-api/src/prowlarr.rs:53-88 | a record read from the SDK is canonical exactly when the SDK gave a sync level |
| ProwlarrConvert.SdkIsGiven | crates/servarr-api/src/prowlarr.rs:90-124 | every property the SDK is given: a zero id left out, ids and tags the same modulo 2^32, names, fields and values kept, unknown sync levels full |
| ProwlarrConvert.SdkIsRead | crates/servarr-api/src/prowlarr.rs:53-88 | every property read back, and what an absent or null one reads as |
| ProwlarrConvert.FieldsRead | crates/servarr-api/src/prowlarr.rs:54-67 | fields with a non-empty name remain in order, with absent values null |

## Left out

- Building clients, reading Secrets, loading app defaults, publishing Events, metrics and logging: only their effect on the flow is modelled, as a parameter that says whether they worked.
- The namespace sweep itself (controller.rs:2827-2890): a pass receives the discovered apps or the failure.
- `cleanup_prowlarr_registration` and `cleanup_seerr_registration` are oracles that succeed or fail.
- Stale snapshots: a reconcile reads the finalizer list as it is when it begins; writes by others between that and the patch are not modelled. The gate that admits only Sonarr, Radarr and Lidarr apps is the caller's.
- The order and the printed text of the drift reports; the diff is a set of paths. JSON objects are maps without order.
- The re-apply after a failed drift check (controller.rs:687-713): one patch under the condition that is modelled.
- Registries give every record its own whole-number id in the 32-bit range. A Seerr entry without an id, which the code treats as id 0, does not occur.
- Seerr ports are reals; not-a-number and infinities do not occur.
- Cron parsing and time formatting: a schedule is any set of whole seconds, a backup's time is an integer that orders like the string. A recorded time that does not parse counts as none.
- Building the Deployment and deleting one whose selector changed (controller.rs:504-653): the model has only the fate of the apply, or that the reconcile ended before it.
- Parsing the restore annotation: the model receives the number or its absence.
- BackupSchedule.AttemptsBounded: holds for a clock that does not run backwards.
- TransmissionRpc.AtMostOnce: rests on the server's side of the contract, that a request answered with 409 has not been run and that a request is run only with the current id.
- Prowlarr applications are stored as sent; defaults that Prowlarr adds to a record are not modelled, and a changed API key under an unchanged name is not propagated by the code.
- The other companion-app clients, the media-stack controller, the webhook, the resource builders, environment parsing and status conditions.
