# Slaptain decision cores, verified

Slaptain's operator and its init image keep their hard decisions in functions that do no
I/O. This project models those functions in Dafny and proves what they are for, over every
input, every run or every order of the data. `dafny verify dfyconfig.toml` checks all of it.

| file | models |
|---|---|
| `Rotation.dfy` | the epoch-anchored purge grid, the signed writer walk, the lead, slapd's phase-aligned scheduler |
| `PurgePlan.dfy` | the schedule gate, the `olcAccessLogPurge` text, and the whole way from custom resource to running server |
| `Backup.dfy` | the SlapdBackup reconcile as a state machine with crashes, lost writes and a foreign hand on the Job |
| `Ldif.dfy`, `Converger.dfy`, `EndState.dfy` | the offline `cn=config` converger: LDIF in, plan, slapmodify, LDIF back, and what becomes of every entry |
| `RidCoord.dfy`, `RidJudges.dfy`, `Mesh.dfy` | replica IDs, serverIDs and peers, and the judges and derivations that hand them out |
| `Csn.dfy`, `PeerCsn.dfy` | contextCSN evidence and the verdicts drawn from it |
| `Providers.dfy` | the identity of remote providers |
| `Teardown.dfy` | deletion of a configuration subtree |
| `Prelude.dfy`, `Text.dfy`, `Sorting.dfy` | Go's integer division, string and sort primitives with the laws the rest uses |

Loops of the source are methods with loops, proved equal to a specification function; the
properties are lemmas about that function. Code that is one expression is a function. The
backup controller, which updates an object, is a class whose methods are proved to be runs
of the state machine.

## What the proofs found

Where a promise turned out false of the code, the code is modelled as it stands, the failing
input is a lemma, and the exact condition is another.

- The gate bounds the lead by (n - 1) slots whatever the displacement, and its comment calls
  that the point where the incoming writer's purge began. That is so only for displacement 1
  (`PurgePlan.GateBoundFitsExactlyDisplacementOne`). From displacement 2 on it accepts leads
  of n - v slots and a rest (`PurgePlan.UnsafeLeadIsAccepted`), with which the endpoint names
  the pod whose purge slot it is that rest from now, the purging pod itself when there is no
  rest (`Rotation.LeadNamesThePurger`). For a purge of any length, an accepted lead keeps the preferred writer off
  its purges at all instants if and only if its whole slots are not n - v and the rest of it
  plus the purge fit the slots left between that pod's purge and its writes
  (`PurgePlan.AcceptedLeadIsSafeExactlyWhen`); so with displacement 1, too, the gate accepts
  leads that are unsafe for a long enough purge.
- The late-recording caveat does not cover a Job that somebody else creates between the
  controller's read of the Job and its record: creation is then answered AlreadyExists, which
  is tolerated, and the record is persisted without the caveat although it was taken after the
  Job began (`Backup.ForeignCreationEscapesTheCaveat`). Outside that window the guarantee
  holds in every run (`Backup.CaveatIsComplete`), and inside it what is about to be recorded
  is truthful in all continuations if and only if no such Job exists or it has already failed
  (`Backup.RecordIsTruthfulExactlyWhen`).
- A peer can turn Synced because evidence was lost on our own side: a failed local reading
  lowers the baseline (`PeerCsn.LostLocalReadingMasksALag`). It happens exactly when the peer
  matches the local pods that are left in every database, and the lost pod was more than the
  threshold ahead of every address of the peer (`PeerCsn.LostLocalReadingMasksExactlyWhen`).
  A reading of the peer that fails never does it; one that is dropped from the list does,
  exactly when nothing else speaks of its database and it did not show that database current
  (`PeerCsn.DroppedReadingHelpsExactlyWhen`).
- The lag printed beside a diverged database differs from its Spread exactly when some pod
  answered with an empty vector, which counts as the zero time (`Csn.LagIsTheSpread`, with
  the case `Csn.EmptyVectorInflatesTheLag`).
- Peer resolutions are matched by name and the first one wins, so any repeated peer name can
  hide a failure (`RidJudges.RepeatedNameHidesAFailure`): approval says that every peer
  resolved if and only if the declared names are distinct
  (`RidJudges.ApprovalIsExactIffNamesDiffer`).
- The sibling scan takes an empty name for "none yet", so a colliding sibling without a name
  makes it forget what it found before (`RidJudges.CollidingSibling`, with the case
  `RidJudges.NamelessSiblingHidesACollision`); with named siblings
  nothing is hidden (`RidJudges.NamedCollisionsAreSeen`).
- A suffix entry created by a pod of this very site that has since been scaled away is read
  as foreign (`Mesh.ForeignMeansAnotherSite`, with the case `Mesh.ScaledAwayPodIsForeign`).
- slapd's aligned scheduler computes a fire time that is not the next one while the clock is
  before the phase and off the grid, because C division truncates
  (`Rotation.NextFireIsFirst`, with the case `Rotation.EarlyClockSkipsAFire`); with the epoch long past this does not arise.

## Model

| member | source | states |
|---|---|---|
| `Rotation.WriteTarget` | operator/internal/controller/purgerotation.go:274-316 | the loop returns the first eligible pod of the signed walk, the purging pod only when nobody else is eligible, and no pod when nobody is |
| `Rotation.ChosenIsUnique` | operator/internal/controller/purgerotation.go:274-316 | that description determines the answer completely |
| `Rotation.ChosenMeans` | operator/internal/controller/purgerotation.go:274-316 | a writer exists exactly when a pod is eligible, it is eligible, and it is the purging pod only as last resort |
| `Rotation.WalkReaches` | operator/internal/controller/purgerotation.go:290-309 | every pod of the fleet is offered by some step of the walk |
| `Rotation.WalkNeverRepeats` | operator/internal/controller/purgerotation.go:290-309 | no pod is offered twice within one walk |
| `Rotation.WalkFollowsTheSign` | operator/internal/controller/purgerotation.go:274-309 | the walk starts at offset v, or at the next slot where v is whole periods, and each step moves one slot in the direction of v's sign, wrapping |
| `Rotation.SlotIsFloor` | operator/internal/controller/purgerotation.go:151-166 | the corrected truncating division is the floor of time over slot, before the epoch too |
| `Rotation.SlotIsWindow` | operator/internal/controller/purgerotation.go:119-166 | slot(now) is k exactly when now modulo the period lies in the k-th window, which starts at pod k's purge phase |
| `Rotation.FiresInOwnSlot` | images/openldap-deb/local-patches/accesslog-purge-phase.patch:74-86 | every fire time slapd computes for pod k, from any clock, is a start of k's grid and falls in slot k |
| `Rotation.NextFireIsFirst` | images/openldap-deb/local-patches/accesslog-purge-phase.patch:74-86 | the fire time is the first grid instant after now if and only if the clock is past the phase or on the grid |
| `Rotation.EarlyClockSkipsAFire` | images/openldap-deb/local-patches/accesslog-purge-phase.patch:74-86 | a clock before the phase for which the computed fire time is one interval late |
| `Rotation.WriterIsNotPurging` | operator/internal/controller/writeservice.go:435-437 | at every instant the pod v slots ahead of slot(now + lead) is outside all of its own purges when purge plus lead fit n - v slots |
| `Rotation.ExclusionIsExact` | operator/internal/controller/writeservice.go:435-437 | for every lead and duration, exclusion at all instants holds if and only if the lead's whole slots avoid the purging slot and the rest fits |
| `Rotation.LeadNamesThePurger` | operator/internal/controller/writeservice.go:435-437 | a lead of n - v whole slots and a rest makes the endpoint name the pod whose purge slot it is that rest from now |
| `Rotation.NoWalkedPodIsPurging` | operator/internal/controller/purgerotation.go:274-316 | when purge and lead fit one slot, whichever pod the walk settles on is not purging, except the last resort |
| `Rotation.WalkIsSafeExactlyWhen` | operator/internal/controller/purgerotation.go:274-316 | over all instants and eligibilities, no chosen pod but the last resort is inside its purge if and only if the lead is whole periods and a rest that fits one slot with the purge |
| `Rotation.HandoverAfterPurgeStart` | operator/api/v1alpha1/slapdcluster_types.go:1357-1406 | the early handover comes strictly after the incoming writer's last purge start exactly when lead < (n - v) slots |
| `PurgePlan.PlanIsUsable` | operator/internal/controller/rotation_gate.go:171-424 | whatever was declared, the plan has a positive whole-second interval; a rotation is in force only under its own reason, with displacement and lead inside the grid |
| `PurgePlan.PlanFromFields` | operator/internal/controller/rotation_gate.go:171-424 | the whole plan from the declared fields: when a rotation is in force, what each mode gives, the interval in every case, displacement and lead |
| `PurgePlan.FaultFromFields` | operator/internal/controller/rotation_gate.go:171-390 | which reason is reported, from the declared fields in order |
| `PurgePlan.RetentionMeans` | operator/internal/controller/accesslog_purge_converged.go:145-179 | the retention is the declared one, or a week, or none when switched off; a defect exactly when a declared one is unusable |
| `PurgePlan.LogAgeReadsBack` | operator/internal/controller/purgerotation.go:73-86 | for every duration the printed age reads back, under the day-plus-clock grammar, to its whole seconds, a negative one to zero |
| `PurgePlan.PurgeReadsBack` | operator/internal/controller/purgerotation.go:199-208 | the value is empty exactly without a positive retention and interval, and otherwise reads back to retention, interval and the optional phase |
| `PurgePlan.PodValueReadsAs` | operator/internal/controller/accesslog_purge_converged.go:195-211 | the value of one pod reads back to its resolved retention, the plan's interval and the pod's own phase below it |
| `PurgePlan.JournalIsPurged` | operator/internal/controller/accesslog_purge_converged.go:145-211 | for every cluster and database the value is empty exactly when purging is switched off, and otherwise reads back to the declared retention and interval, or a week and a day, and the phase of that ordinal exactly when staggered |
| `PurgePlan.FallbackHasNoPhase` | operator/internal/controller/accesslog_purge_converged.go:195-211 | the fallback exists exactly for a staggered value and reads back to the same without the phase |
| `PurgePlan.PhasesAreDistinct` | operator/internal/controller/purgerotation.go:119-126 | the phases of one fleet are strictly increasing in the ordinal |
| `PurgePlan.ScalingMovesNoPhase` | operator/internal/controller/accesslog_purge_converged.go:195-211 | the text written to a pod before and after scaling reads back to one and the same phase |
| `PurgePlan.PreferredWriterNeverPurges` | operator/internal/controller/rotation_gate.go:171-390 | end to end: with the gate's plan, the text written to the pod and the schedule the server computes from it, the chosen preferred writer is never inside a purge |
| `PurgePlan.AcceptedLeadIsSafeExactlyWhen` | operator/internal/controller/rotation_gate.go:324-356 | for every purge duration, an accepted lead keeps the preferred writer off its purges at all instants if and only if its whole slots are not n - v and the rest plus the purge fit |
| `PurgePlan.UnsafeLeadIsAccepted` | operator/internal/controller/rotation_gate.go:324-356 | for every displacement from 2 the gate accepts leads of n - v slots |
| `PurgePlan.GateBoundFitsExactlyDisplacementOne` | operator/internal/controller/rotation_gate.go:324-356 | the gate accepts exactly the leads with which every handover comes after the incoming writer's purge starts before the boundary, if and only if the displacement is 1 |
| `Backup.StepKeepsInv` | operator/internal/controller/slapdbackup_controller.go:86-260 | every step of the controller and of its environment keeps the invariant |
| `Backup.FinishedIsRecorded` | operator/internal/controller/slapdbackup_controller.go:107-260 | in every run, a persisted Completed or Failed carries both source conditions |
| `Backup.FinishedIsFinal` | operator/internal/controller/slapdbackup_controller.go:86-130 | after a persisted terminal phase no continuation changes the status or creates a Job |
| `Backup.TerminalPhaseHasACause` | operator/internal/controller/slapdbackup_controller.go:225-259 | in every run Completed is persisted only after a Job completed, and Failed only after one failed |
| `Backup.PersistedRecordIsFinal` | operator/internal/controller/backup_source.go:255-274 | in every run a record, once persisted, is never replaced |
| `Backup.UncaveatedRecordPrecedesDump` | operator/internal/controller/backup_source.go:267-301 | in every run, a completed record without caveat and without the race was read before the Job behind the artifact was created |
| `Backup.CaveatIsComplete` | operator/internal/controller/backup_source.go:276-301 | without a foreign creation inside the window, absence of the caveat alone is that guarantee |
| `Backup.QuietWindowIsTruthful` | operator/internal/controller/slapdbackup_controller.go:150-260 | a record made while no Job exists, or only a failed one, is a lower bound in every completing continuation |
| `Backup.RaceEscapes` | operator/internal/controller/slapdbackup_controller.go:150-260 | a record made while an unseen Job exists that has not failed can complete without the caveat and is then no lower bound |
| `Backup.RecordIsTruthfulExactlyWhen` | operator/internal/controller/slapdbackup_controller.go:150-260 | what is about to be recorded is a lower bound in all completing continuations if and only if no Job exists or it has failed |
| `Backup.ForeignCreationEscapesTheCaveat` | operator/internal/controller/slapdbackup_controller.go:150-260 | a concrete run from the initial state that ends in such a record |
| `Backup.Api.Reconcile` | operator/internal/controller/slapdbackup_controller.go:86-260 | what an undisturbed pass answers, from the old status, the old Job and the replies: reaped, Pending, started, or Failed, Completed or Running by the Job found, with completion time and record; and it is a run of the machine |
| `Backup.Api.RecordAndRun` | operator/internal/controller/slapdbackup_controller.go:182-260 | the middle of the pass records before it creates or observes, and answers by the Job it found |
| `Backup.Api.CreateJob` | operator/internal/controller/slapdbackup_controller.go:202-223 | creation, its three replies, and the Running answer with its start time |
| `Backup.Api.ObserveJob` | operator/internal/controller/slapdbackup_controller.go:225-259 | a failed Job is answered Failed, a completed one Completed, else Running; only the first two set the completion time |
| `Ldif.ParseLdif` | images/slapd-init/startup_config.py:141-199 | the mutating line loop computes the fold of its line step over the text |
| `Ldif.LdifRoundTrip` | images/slapd-init/startup_config.py:141-214 | for all values, every choice of which to encode (a value with a newline must be) and every folding after the header, the parser returns the same DNs and value lists in order |
| `Ldif.OwnLinesAreAdmitted` | images/slapd-init/startup_config.py:202-214 | the lines the script's own printer writes are among those |
| `Ldif.PlainIsSafe` | images/slapd-init/startup_config.py:202-214 | a value is written plain exactly when it is a SAFE-STRING of RFC 2849 without control characters or a blank at its end |
| `Ldif.CommentIsIgnored` | images/slapd-init/startup_config.py:170-181 | a comment between two lines, the second no continuation, leaves what is read as it was |
| `Ldif.SilentLinesAreIgnored` | images/slapd-init/startup_config.py:170-189 | the same of colonless lines and URL values |
| `Ldif.BlankBeforeDnIsOptional` | images/slapd-init/startup_config.py:170-197 | a DN line ends the entry before it, blank line or not |
| `Ldif.SpacingIsFree` | images/slapd-init/startup_config.py:183-191 | the space after the colon may be missing, and space around the name is not part of it |
| `Ldif.AttributeWithoutDnIsDropped` | images/slapd-init/startup_config.py:162-169 | what has no DN is no entry |
| `Converger.SyncprovOverlayOf` | images/slapd-init/startup_config.py:80-97 | the scan returns exactly the syncprov children of the database, in dump order |
| `Converger.Databases` | images/slapd-init/startup_config.py:380-390 | the dictionary groups exactly the databases of each normalized suffix, in dump order |
| `Converger.Desired` | images/slapd-init/startup_config.py:393-416 | a suffix named once keeps its record, one named twice stays named without a value |
| `Converger.Plan` | images/slapd-init/startup_config.py:393-472 | the loops over sorted dictionaries compute the specified plan |
| `Converger.PlanNoRepeat` | images/slapd-init/startup_config.py:393-472 | no entry is modified twice |
| `Converger.ApplyAlwaysSucceeds` | images/slapd-init/startup_config.py:217-237 | applying the plan never meets a refused record; every delete targets an attribute that is present |
| `Converger.PlanningAgainAsksNothing` | images/slapd-init/startup_config.py:393-472 | one application is a fixpoint: planning again yields nothing |
| `Converger.ReadBackFindsNothing` | images/slapd-init/startup_config.py:546-549 | the script's final check passes on every dump of the result in which each value stands plain or in base64, as the producer likes, folded anywhere after its header |
| `Converger.UnnamedHoldsNone` | images/slapd-init/startup_config.py:417-430 | afterwards no syncprov overlay of an unnamed database holds the attribute |
| `Converger.ResolvedHoldsDeclared` | images/slapd-init/startup_config.py:431-472 | afterwards a database named once and resolvable holds the declared value with no exclusive attribute beside it |
| `Converger.DoubtLeavesAlone` | images/slapd-init/startup_config.py:406-472 | a database named in doubt keeps its overlay exactly as it was |
| `Converger.WritesAreBootSafe` | images/slapd-init/startup_config.py:431-472 | every value written names a suffix still configured afterwards, and no pair any record names is deleted |
| `Converger.FinalKeepsTheRest` | images/slapd-init/startup_config.py:217-237 | nothing but the managed attribute and its exclusives changes on any entry |
| `EndState.NormalizeIdentifies` | images/slapd-init/startup_config.py:370-377 | folding identifies exactly the names that agree component by component up to case and surrounding space |
| `EndState.DatabaseMeans` | images/slapd-init/startup_config.py:380-390 | a database of a suffix, told from its objectClass and olcSuffix values |
| `EndState.OverlayMeans` | images/slapd-init/startup_config.py:80-97 | a syncprov overlay of a database, told from its DN and its olcOverlay value |
| `EndState.ResolvesMeans` | images/slapd-init/startup_config.py:428-453 | a record is acted on exactly when it is the only one, its database is, its overlay is, and its value names a configured database |
| `EndState.DeclaredValueIsWritten` | images/slapd-init/startup_config.py:428-470 | then the overlay ends with exactly the declared value and none of what it displaces, and one that had it already is not touched |
| `EndState.DoubtfulIsUntouched` | images/slapd-init/startup_config.py:412-455 | a named overlay with any of the four in doubt is left exactly as it was |
| `EndState.UnnamedLosesTheAttribute` | images/slapd-init/startup_config.py:412-426 | an unnamed overlay loses the attribute and nothing else |
| `EndState.OtherEntriesAreUntouched` | images/slapd-init/startup_config.py:393-472 | no other entry changes |
| `RidCoord.DecodeEncode` | operator/internal/ridcoord/ridcoord.go:123-232 | decoding undoes encoding on every admitted coordinate, and the RID is in 1..999 |
| `RidCoord.EncodeDecode` | operator/internal/ridcoord/ridcoord.go:123-232 | encoding undoes decoding on every RID the layout decodes |
| `RidCoord.EncodeInjective` | operator/internal/ridcoord/ridcoord.go:123-149 | no two coordinates share a RID |
| `RidCoord.SegmentsFill` | operator/internal/ridcoord/ridcoord.go:74-116 | a layout is valid exactly when a segment fits 1..999, and it has as many segments as fit |
| `RidJudges.CollidingSibling` | operator/internal/controller/ridsegment.go:169-192 | the scan finds the lowest-named collision that no later nameless one resets, and finds one whenever there is one |
| `RidJudges.NamedCollisionsAreSeen` | operator/internal/controller/ridsegment.go:169-192 | when siblings have names, no collision escapes the scan |
| `RidJudges.NamelessSiblingHidesACollision` | operator/internal/controller/ridsegment.go:169-192 | a nameless sibling after a colliding one hides it |
| `RidJudges.JudgeRidSegment` | operator/internal/controller/ridsegment.go:99-156 | the verdict, refusal by refusal, with the sibling scan by its meaning; a hidden collision counts as none |
| `RidJudges.SegmentVerdictMeans` | operator/internal/controller/ridsegment.go:99-156 | approval and every refusal, from the declared values: out of range means without any RID |
| `RidJudges.JudgeExternalPeers` | operator/internal/controller/ridstanza.go:220-280 | the four loops answer the four questions about the list, in order |
| `RidJudges.PeersVerdictMeans` | operator/internal/controller/ridstanza.go:220-280 | the verdict from the declared values: a peer's own or the cluster's fan-out above one, an index missing, outside the layout, or twice; approved exactly without these |
| `RidJudges.ApprovedMeansOneLinkEach` | operator/internal/controller/replidentity.go:181-188 | approval implies that no declared fan-out in force is above one |
| `RidJudges.FleetVerdictMeans` | operator/internal/controller/ridstanza.go:319-352 | the fleet is refused exactly when some pod has no RID, or a consumer-only cluster asks for read replicas |
| `RidJudges.InClusterStanzaRids` | operator/internal/controller/ridstanza.go:71-95 | either every ordinal except self with its RID, or no map; which of the two, exactly |
| `RidJudges.ApprovedLinkHasRid` | operator/internal/controller/ridstanza.go:71-119 | once the judges approve, every local and remote link has a RID in 1..999 |
| `RidJudges.RidsAreUnique` | operator/internal/controller/ridstanza.go:220-352 | under approval, equal RIDs of any two links of any two databases mean one database and one link |
| `RidJudges.JudgePeerResolutions` | operator/internal/controller/ridpeerresolve.go:162-244 | approval exactly when every declared peer's first outcome resolved; otherwise the reason of the first that did not |
| `RidJudges.ResolutionReasonMeans` | operator/internal/controller/ridpeerresolve.go:215-244 | which refusal a peer gets, from the fields of its first outcome |
| `RidJudges.NoShortSetIsApproved` | operator/internal/controller/ridpeerresolve.go:162-205 | on any outcome list, approval exactly when the first outcome of every declared peer resolved; with no name reported twice, exactly when every declared peer has a readable credential and an address |
| `RidJudges.RepeatedNameHidesAFailure` | operator/internal/controller/ridpeerresolve.go:162-205 | in any list that repeats a name, the later peer can fail and the list is approved |
| `RidJudges.ApprovalIsExactIffNamesDiffer` | operator/internal/controller/ridpeerresolve.go:162-205 | approval says of every outcome that it resolved if and only if the declared names are distinct |
| `Mesh.MeshSiteIndex` | operator/internal/controller/mesh_derive.go:159-211 | the loop accepts exactly the well-formed lists and returns the place of the named site, or the reason there is none |
| `Mesh.ExternalPeersForSite` | operator/internal/controller/mesh_derive.go:373-443 | the loops compute the peers of every other selected site, or the first fault |
| `Mesh.WiredMeans` | operator/internal/controller/mesh_resolve.go:107-161 | what every accepted wiring rests on: a well-formed list, the site's own base, its peers, indices and pods within all bounds |
| `Mesh.AcceptedExactlyWhen` | operator/internal/controller/mesh_resolve.go:107-260 | a wiring is derived if and only if the cluster declares nothing the mesh owns, the list is sound and inside both addressing schemes, and the cluster spans known sites including its own |
| `Mesh.RefusalMeans` | operator/internal/controller/mesh_resolve.go:107-161 | otherwise, which refusal, in order |
| `Mesh.FirstOutsideDecides` | operator/internal/controller/mesh_derive.go:300-322 | the first site outside a scheme decides, the serverID ceiling first |
| `Mesh.LayoutIsDeclared` | operator/internal/controller/mesh_derive.go:328-340 | the layout in force, axis by axis |
| `Mesh.SiteIsOrderFree` | operator/internal/controller/mesh_derive.go:159-211 | a name stands for the same site, or fails for the same reason, in every order of the list |
| `Mesh.DerivationIsOrderFree` | operator/internal/controller/mesh_resolve.go:107-161 | reordering the sites changes no acceptance, no base and no peer |
| `Mesh.DerivesExactlyTheSpanned` | operator/internal/controller/mesh_derive.go:373-443 | a site derives exactly one peer for each other site it spans, none for the rest and none for itself |
| `Mesh.PeeringIsSymmetric` | operator/internal/controller/mesh_derive.go:373-443 | two sites spanning the same set each derive the other exactly once |
| `Mesh.DerivedPeersPass` | operator/internal/controller/ridstanza.go:220-280 | derived peers pass the peer judge under the same layout if and only if there are none or the fan-out is at most one |
| `Mesh.ServerIdReadsBack` | operator/internal/controller/slapddatabase_controller.go:1984-1987 | every serverID lies in 1..4095 and reads back as site index and ordinal |
| `Mesh.CeilingsAreExact` | operator/internal/controller/mesh_derive.go:475-485 | 15 pods are as many as read back to their site, and 255 is the last index within 4095 |
| `Mesh.ServerIdsAreUnique` | operator/internal/controller/mesh_derive.go:267-281 | equal serverIDs anywhere in an accepted mesh mean one site and one ordinal |
| `Mesh.ForeignMeansAnotherSite` | operator/internal/controller/seed_withhold.go:29-71 | on a CSN minted by any pod of the mesh, foreign exactly when the pod is at another site or at an ordinal scaled away here |
| `Mesh.ScaledAwayPodIsForeign` | operator/internal/controller/seed_withhold.go:50-71 | a concrete case of the latter |
| `Mesh.UnreadableIsNotForeign` | operator/internal/controller/seed_withhold.go:29-55 | a CSN that does not parse never withholds the seed |
| `Csn.NewestCsn` | operator/internal/controller/csn.go:136-153 | the loop returns the latest parseable time, zero for an empty vector, an error when none parses |
| `Csn.NewestMeans` | operator/internal/controller/csn.go:136-153 | the newest time is one of the vector's above zero with none later; nothing exactly when a non-empty vector has none |
| `Csn.CsnConverged` | operator/internal/controller/csn.go:157-168 | true exactly when all vectors print alike |
| `Csn.NormalizeIsExact` | operator/internal/controller/csn.go:171-176 | vectors of CSN-shaped strings print alike exactly when they are equal as multisets |
| `Csn.BarsAreAmbiguous` | operator/internal/controller/csn.go:171-176 | without that shape they need not be equal |
| `Csn.SortedSuffixes` | operator/internal/controller/csn_convergence.go:453-465 | the distinct suffixes, sorted |
| `Csn.DatabaseCsnReadouts` | operator/internal/controller/csn_convergence.go:155-213 | the two map-updating loops compute the per-database readouts |
| `Csn.SpreadIsTheWidestGap` | operator/internal/controller/csn_convergence.go:144-213 | a spread exists exactly when two pods yielded a time, bounds every distance and is attained |
| `Csn.ExpectedAddsUp` | operator/internal/controller/csn_convergence.go:155-180 | the expected counts of all databases add up to the readings |
| `Csn.CountsArePods` | operator/internal/controller/csn_convergence.go:170-197 | the two counts are the pods asked and the pods that yielded a time |
| `Csn.EvaluateLocalConvergence` | operator/internal/controller/csn_convergence.go:239-307 | the loops compute the specified verdict, baselines and readouts |
| `Csn.LocalVerdictMeans` | operator/internal/controller/csn_convergence.go:239-307 | False exactly when two readable pods of a database differ as multisets, True exactly when there are readings, all were read and none differ |
| `Csn.DivergedAreNamed` | operator/internal/controller/csn_convergence.go:275-283 | the databases named are those two of whose readable pods differ, each with its lag |
| `Csn.LagIsTheWidestGap` | operator/internal/controller/csn_convergence.go:253-281 | that lag is the widest gap between the times of two readable pods, an empty vector being time zero |
| `Csn.ConvergedHasNoSpread` | operator/internal/controller/csn_convergence.go:239-307 | True forces every existing spread to zero |
| `Csn.LagIsTheSpread` | operator/internal/controller/csn_convergence.go:253-281 | the printed lag is the spread exactly when no pod answered with an empty vector |
| `Csn.EmptyVectorInflatesTheLag` | operator/internal/controller/csn_convergence.go:253-281 | a concrete case where they differ |
| `Csn.LocalIsOrderFree` | operator/internal/controller/csn_convergence.go:239-307 | the whole local verdict is the same for every order of the readings |
| `PeerCsn.EvaluatePeerConvergence` | operator/internal/controller/csn_convergence.go:350-440 | the loops compute the specified peer verdict |
| `PeerCsn.PeerVerdictMeans` | operator/internal/controller/csn_convergence.go:350-440 | Unreachable, Lagging and Synced each exactly by the evidence, PartiallyVerified the rest; Synced needs both sides read and within a non-negative threshold |
| `PeerCsn.ReportedLagIsTheWorst` | operator/internal/controller/csn_convergence.go:375-432 | the reported lag is how far the peer's latest time is behind ours in some database, above the threshold, and no database read on both sides is further behind |
| `PeerCsn.UnverifiedAreNamed` | operator/internal/controller/csn_convergence.go:377-420 | the unverified suffixes are exactly the asked ones that one side could not read, once and in order |
| `PeerCsn.PeerIsOrderFree` | operator/internal/controller/csn_convergence.go:350-440 | the peer verdict is the same for every order of the readings |
| `PeerCsn.LostPeerReadingIsNoGoodNews` | operator/internal/controller/csn_convergence.go:350-440 | replacing a reading by a failed one never turns a peer Synced |
| `PeerCsn.DroppedReadingIsGoodNews` | operator/internal/controller/csn_convergence.go:350-440 | dropping one can: a concrete case |
| `PeerCsn.DroppedReadingHelpsExactlyWhen` | operator/internal/controller/csn_convergence.go:350-440 | dropping a reading turns the peer Synced exactly when what remains is current, nothing else speaks of its database and it did not show it current |
| `PeerCsn.LostLocalReadingMasksExactlyWhen` | operator/internal/controller/csn_convergence.go:387-411 | a lost local reading turns the peer Synced exactly when the peer matches the other local pods everywhere and that pod was over the threshold ahead of every address |
| `PeerCsn.LostLocalReadingMasksALag` | operator/internal/controller/csn_convergence.go:387-411 | a concrete case of it |
| `Providers.OrdinalIsCanonical` | operator/internal/controller/providers.go:61-75 | a name has ordinal k exactly when it is a StatefulSet name, a dash and the canonical decimal of k |
| `Providers.OrdinalTellsPodsApart` | operator/internal/controller/providers.go:61-75 | two pods of one StatefulSet share an ordinal exactly when it is one |
| `Providers.ProvidersFromPods` | operator/internal/controller/providers.go:104-133 | the loop with its table of seen ordinals computes the sorted providers, or refuses exactly when a pod has no ordinal or two share one |
| `Providers.ProvidersAreExact` | operator/internal/controller/providers.go:104-133 | the answer ascends strictly and is exactly the running pods with the address that counts: the pod IP when pod-routed, the Multus IP when not |
| `Providers.RefusedExactlyWhen` | operator/internal/controller/providers.go:104-133 | refused exactly when a running, addressed pod has no ordinal or two share one |
| `Providers.AscendingIsUnique` | operator/internal/controller/providers.go:131-132 | a strictly ascending arrangement is unique, so an unstable sort gives the same list |
| `Providers.ProvidersAreOrderFree` | operator/internal/controller/providers.go:104-133 | every order of the pods gives the same list or the same refusal |
| `Teardown.DnDepth` | operator/internal/controller/database_teardown.go:58-75 | the escape-aware scan counts the RDNs of the name |
| `Teardown.NameIsExact` | operator/internal/controller/database_teardown.go:58-75 | a name is its RDNs joined by commas, one more than the commas an even number of backslashes precedes |
| `Teardown.ChildIsBelow` | operator/internal/controller/database_teardown.go:58-75 | a descendant is strictly deeper, escaped commas included |
| `Teardown.PlanIsDeepestFirstAndStable` | operator/internal/controller/database_teardown.go:45-54 | the plan is a permutation, deepest first, input order within a depth |
| `Teardown.PlanIsTheStableOrder` | operator/internal/controller/database_teardown.go:45-54 | it is the only such order, so any stable sort by depth gives it |
| `Teardown.DeepestFirstSucceeds` | operator/internal/controller/database_teardown.go:45-54 | any deepest-first order of a downward-closed list deletes without a refusal |
| `Teardown.SuccessNeedsClosure` | operator/internal/controller/database_teardown.go:45-54 | no order succeeds on any other list |
| `Teardown.TeardownNeverSticks` | operator/internal/controller/database_teardown.go:45-54 | running the plan removes exactly the listed entries if and only if the list is distinct, present and closed below |

## Left out

- Integer widths: int, int32, int64 and time.Duration are unbounded here, so overflow of n times the slot and the saturation of very long durations are not modelled; the 32-bit parses of pod ordinals and CSN serverIDs are.
- Case folding and white space are those of ASCII; Unicode folding is not modelled.
- Base64 and UTF-8 are a pair of inverse functions whose output has no newline. The LDIF round trip is about lines with a space after the colon, as the script writes them; folded comments and URL-valued attributes are not covered, as the parser does not claim them.
- The reader of `[ddd+]hh:mm[:ss]` follows the documented grammar; slapd's own parser is not part of the repository.
- Text of conditions, errors and log lines: verdicts carry their reason only, and the converger's list of refusals is not kept.
- LDAP, S3 and Kubernetes calls, Job and pod builders, probes, the exporter: plumbing; what they return is a parameter.
- `parse_table` and the reading of the startup table: a line it refuses yields no record, so the converger's theorems are over record lists, not raw text.
- `aggregateAccesslogPurgeConverged`, `seed_site.go`, `data_present.go`, `pods_responsive.go`, `imageselector.go`, `scale_tunables.go`, `startup_only_guard.go`, `normalizedCSNVector`: flat case analyses that would add only easy members.
- RidJudges.RidsAreUnique: takes the segment verdict by its meaning, which is the judge's own answer for siblings with names, and is about databases as declared; while a segment is being edited, stale stanzas on pods are outside it.
- Backup: reads see the current state and one pass runs at a time; stale caches and what exactly the two conditions say of the source are not modelled.
- Mesh.DerivationIsOrderFree: success is order-free, but which of two layout faults is reported first is not, because the source stops at the first offending site.
- Mesh: network attachments and service exposure carried along with a wiring are only present as the flag the conflict check reads.
- Csn, PeerCsn: the clock, which turns a CSN into a time, is a parameter; the properties hold for every clock.
- Converger: the managed table is one row at a time; the script has a single row, and the theorems hold for any row that leaves the structural attributes alone (`Converger.SessionlogSourceIsSeparate` shows that its row does).
- Providers: the Multus address is a field of the pod, as extracting it from annotations is JSON plumbing.
