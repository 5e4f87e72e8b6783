# Treadstone control plane: a verified model

Treadstone runs sandboxes on Kubernetes for many users and bills them for it. Several replicas of its control plane
run at once; one of them, elected through a Kubernetes Lease, keeps the database in step with the cluster and meters
usage. This project models the parts of that control plane where steps of many actors interleave or where money is
counted, and proves what they keep. `dafny verify dfyconfig.toml` checks everything.

Time is an integer number of microseconds; credits and resource-hours are exact reals. Reads and writes that the
program performs in separate awaits are separate steps here, and any other actor may move in between.

| module | what it covers |
|---|---|
| `LeaderElection`, `ElectionProtocol` | one elector; any number of electors on one Lease, with lost and late writes |
| `SyncSupervisor`, `SupervisedCluster` | one supervisor and its four tasks; all replicas' supervisors over the election |
| `SandboxSync`, `CrPairing`, `CommitLoop`, `Reconcile`, `ReconcileEffect`, `StatusUpdates` | deriving a status, pairing CRs with rows, the reconcile pass and what it achieves, concurrent status writers |
| `Credits`, `EarliestExpiryFirst` | consuming credits; why earliest expiry first is the right order |
| `ComputeSessions`, `OverlappingLeaders`, `MeteringTables`, `MeteringReconcile` | sessions from open to close, two leaders metering at once, one open row per sandbox, the repair hooks |
| `MeteredBilling` | sessions and credits together |
| `Calendar`, `BillingReset`, `GracePeriod`, `UsageQuery` | months, catching up missed months, forced stops, the usage queries |
| `Rounding`, `StorageDrift`, `Digits`, `StorageSize` | rounded GiB-hours of storage ledgers, numbers in text, storage sizes |
| `CliLogin` | the CLI login flow |

## Assumptions

- Replica identities are distinct and non-empty, Lease durations are not negative, the replicas share one clock that
  never goes back, and nobody deletes the Lease. Database transactions are atomic.
- Kubernetes names are unique within a namespace.
- The unique indexes on open sessions and on active ledgers hold (`treadstone/metering/models/metering.py:147-151`,
  `treadstone/metering/models/metering.py:181-186`).

## Where the code falls short of a promise

Each of these is proved, with a concrete case or for all inputs, next to the exact condition under which the promise holds.

- A task that ends with its own exception between the reaping and the stop is awaited again and its exception leaves
  `_stop_all_tasks`: the remaining slots stay occupied, and their tasks keep running. Stopping empties all slots if
  and only if no task raises (`StopEmptiesIff`, `RaisingSyncTaskStrandsTheOthers`).
- Two replicas run tasks together as soon as a leader outlives its Lease without stopping; the election alone does not
  prevent it, whatever state the cluster has reached (`LateLeaderOverlaps`). With every running replica on time it cannot
  happen (`AtMostOneReplicaRunsTasks`).
- The tick's guard compares `gmt_updated`; when two writes stamp the same instant, a slice is metered twice
  (`RepeatedStampMetersTwice`). A write keeps the books exactly when its reader saw the current last metering
  (`TickWriteIsExact`).
- Closing a session of an unknown template adds hours, then raises before charging or ending it; each retry adds them
  again (`RaisingCloseBooksForNothing`). With a known template it charges what it books if and only if the rate has not
  changed since the session was opened (`CloseChargesBookedIff`). A tick over such a session commits nothing for anybody (`TickMetering`).
- A month rollover books each hour once if and only if the session was not yet metered past the boundary
  (`RolloverIsLossless`). Charges equal booked hours if and only if it was metered at least up to the boundary, because
  the slice before the boundary is never charged (`RolloverSliceIsNotCharged`).
- A session opened at or after a period's end and before the reset is ended not after it started; its hours then show up
  in no period (`LateSessionIsInNoPeriod`). A rolled-over session is reported by some period if and only if it started
  before the boundary (`RolledOverRowIsReportedIff`).
- Catching up ends on the natural month of `now` if and only if the plan began on a month start, as long as the clock
  stays in that month during the loop (`ResetMonthlyCredits`).
- With two or more open sessions only the first is split at a month boundary: its rollover advances the plan, and the
  other calls find nothing to do. All are split if and only if there is at most one (`EverySessionSplitsIff`).
- A session that goes on after the period's end is reported there with more than the time it spent inside, because the
  ratio's denominator stops at the end; it is exact if and only if the hours booked are those of its life up to the
  period's end (`ShareIsWorthIff`).
- Once `now` has passed the period's end, open sessions begun in the period satisfy neither SQL filter of the split
  query; the difference is exactly their share (`SplitIsPlainLessMissed`).
- A CR without a resourceVersion can make a second reconcile pass erase the stored one (`UnversionedCrIsNotIdempotent`);
  reconcile is idempotent if and only if no row meets such a CR with a due status change (`ReconcileIsIdempotentIff`).
- `_fail_cli_flow` writes what it decided on an earlier read, so it can wipe out an approval, or mark a completed login
  as failed (`FailureOverwritesApproval`, `ContestedApprovalCanBeLost`). An approval with no such failure under way
  survives (`UncontestedApprovalSurvives`).

## Model

| member | source | states |
|---|---|---|
| `LeaderElection.SubmitIsCompareAndSwap` | treadstone/infra/services/leader_election.py:92-114 | The store is a compare-and-swap register: a request succeeds exactly when it names the current Lease, a refused one leaves no trace, an accepted one gets a version never seen before and outdates everything built on an earlier state |
| `LeaderElection.LeaderElector.Build` | treadstone/infra/services/leader_election.py:120-145 | An elector exists exactly when renew < lease duration and retry <= renew |
| `LeaderElection.GivesWayIff` | treadstone/infra/services/leader_election.py:147-165 | An elector sends nothing if and only if another identity holds the Lease and its tenure has not run out; so a holder always renews |
| `LeaderElection.AttemptWrites` | treadstone/infra/services/leader_election.py:193-290 | What each attempt writes: its own identity, duration and renewTime; create, renew or take over by who held the Lease; acquireTime kept or new; transitions kept or one more |
| `LeaderElection.UndisturbedAttemptLeads` | treadstone/infra/services/leader_election.py:147-249 | Undisturbed, an attempt leads if and only if nobody else's tenure is running |
| `LeaderElection.UndisturbedReleaseBlanks` | treadstone/infra/services/leader_election.py:167-191 | Undisturbed, a release blanks the holder's Lease, keeping acquireTime and transitions; nobody else writes |
| `LeaderElection.LeaderElector.TryAcquireOrRenew` | treadstone/infra/services/leader_election.py:147-165 | One attempt, with any interference between read and write and any failing call: what ends up stored, what the caller is told, that leadership is believed exactly on an accepted write; and, undisturbed, that it leads if and only if nobody else's tenure is running |
| `LeaderElection.LeaderElector.ReleaseIfHeld` | treadstone/infra/services/leader_election.py:167-191 | Only the holder writes, and undisturbed its Lease ends blank; lease errors of the write are swallowed, a failing read and any other error of the write escape; except after a failing read the elector no longer believes it leads |
| `ElectionProtocol.RunKeepsInv` | treadstone/infra/services/leader_election.py:147-290 | Every interleaving of clock reads, Lease reads, writes in flight, lost answers and releases keeps the protocol invariant |
| `ElectionProtocol.AtMostOneLiveClaim` | treadstone/infra/services/leader_election.py:193-265 | In every reachable state at most one replica is inside the validity of its last accepted, unreleased write |
| `ElectionProtocol.ValidityIntervalsDisjoint` | treadstone/infra/services/leader_election.py:231-265 | Accepted writes of different replicas with no release between them have disjoint validity intervals: the later starts no earlier than the earlier's renewTime plus its stored duration |
| `ElectionProtocol.WritesFollowEachOther` | treadstone/infra/services/leader_election.py:193-290 | Each accepted write replaces exactly the one before it: renewals keep acquireTime and transitions and never move renewTime back, takeovers add one transition and wait out the old tenure unless it was released |
| `ElectionProtocol.LeaseTransitionsCountTakeovers` | treadstone/infra/services/leader_election.py:231-249 | leaseTransitions is the number of takeovers since the Lease was created |
| `ElectionProtocol.CommitOutdatesMessages` | treadstone/infra/services/leader_election.py:103-114 | Once a write is accepted, no write already in flight can be accepted any more |
| `ElectionProtocol.FollowsIffOtherTenureRuns` | treadstone/infra/services/leader_election.py:147-165 | In every reachable state a replica reading the Lease is told to follow if and only if another replica's tenure is running at its clock reading; otherwise it sends a write of its own |
| `ElectionProtocol.UndisturbedAttemptWinsIff` | treadstone/infra/services/leader_election.py:147-249 | From every reachable state, an undisturbed attempt is answered leader if and only if no other tenure is running, and then the Lease is the replica's, renewed now |
| `ElectionProtocol.UndisturbedReleaseFrees` | treadstone/infra/services/leader_election.py:167-191 | From every reachable state, the holder's undisturbed release blanks the Lease |
| `SyncSupervisor.StopFromCharacterised` | treadstone/infra/services/sync_supervisor.py:251-269 | Stopping raises exactly when some occupied slot's task ends with its own exception; otherwise exactly the listed slots are emptied |
| `SyncSupervisor.StopEmptiesIff` | treadstone/infra/services/sync_supervisor.py:251-269 | All four slots end empty if and only if no task raises |
| `SyncSupervisor.RaisingSyncTaskStrandsTheOthers` | treadstone/infra/services/sync_supervisor.py:251-269 | A sync task that raised leaves every other slot as it was |
| `SyncSupervisor.LeaderControlledSyncSupervisor.StopAllTasks` | treadstone/infra/services/sync_supervisor.py:251-269 | The loop over the four tasks computes that stop, and only ends tasks |
| `SyncSupervisor.LeaderControlledSyncSupervisor.ReapTasks` | treadstone/infra/services/sync_supervisor.py:271-292 | Exactly the finished tasks leave their slots |
| `SyncSupervisor.LeaderControlledSyncSupervisor.StartTasks` | treadstone/infra/services/sync_supervisor.py:174-186 | A leader gets a sync task, and the three tick loops when it has a session factory; occupied slots keep their task |
| `SyncSupervisor.LeaderTurnFillsSlots` | treadstone/infra/services/sync_supervisor.py:162-186 | After a LEADER turn every wanted slot is taken: by a new task where the slot was empty or its task had finished, else by the task that was still running when reaped |
| `SyncSupervisor.LeaderControlledSyncSupervisor.Turn` | treadstone/infra/services/sync_supervisor.py:162-190 | LEADER starts what is missing; FOLLOWER or an election error stops everything; a turn never releases the Lease |
| `SyncSupervisor.LeaderControlledSyncSupervisor.Shutdown` | treadstone/infra/services/sync_supervisor.py:196-210 | Tasks stop before the release, a raising task prevents release and completion, a completed shutdown is not repeated |
| `SyncSupervisor.RaisedStopRaisesAgain` | treadstone/infra/services/sync_supervisor.py:261-269 | A task whose exception cut one stop short cuts every later stop short, whatever the other tasks do meanwhile |
| `SyncSupervisor.LeaderControlledSyncSupervisor.Run` | treadstone/infra/services/sync_supervisor.py:160-194 | After any turns and the final shutdown, shutdown is complete exactly when all slots are empty and no task was running at any release; a turn that raised makes the shutdown raise too, without a release |
| `SupervisedCluster.RunKeepsInv` | treadstone/infra/services/sync_supervisor.py:160-210 | Every interleaving of all replicas' election, start, stop, shutdown, release and crash steps keeps the composed invariant |
| `SupervisedCluster.AtMostOneReplicaRunsTasks` | treadstone/infra/services/sync_supervisor.py:160-194 | In every reachable state at most one of the replicas that renew or stop within their Lease duration runs any sync, metering, lifecycle or snapshot task |
| `SupervisedCluster.NoTaskDuringRelease` | treadstone/infra/services/sync_supervisor.py:196-210 | A replica that is releasing or down runs nothing |
| `SupervisedCluster.AttemptEnds` | treadstone/infra/services/sync_supervisor.py:167-190 | An error or a lost election sends the replica to stop, a victory starts its tasks |
| `SupervisedCluster.LoserStopsFirst` | treadstone/infra/services/sync_supervisor.py:167-190 | After a lost or failed attempt, until the replica has once been without tasks it is still stopping and has started none |
| `SupervisedCluster.LateLeaderOverlaps` | treadstone/infra/services/leader_election.py:132-135 | From every reachable state in which one replica runs tasks and another sleeps, a continuation has both running: the first merely outlives its Lease |
| `SupervisedCluster.OverlapIsReachable` | treadstone/infra/services/leader_election.py:132-135 | So for any two replicas of any cluster there is a run in which both run tasks |
| `Credits.CreditPool.DrainGrants` | treadstone/metering/services/metering_service.py:379-388 | The loop over the locked grants computes the deduction in row order |
| `Credits.CreditPool.ConsumeComputeCredits` | treadstone/metering/services/metering_service.py:324-397 | The method computes the consumption whose split and effect the rows below state |
| `Credits.MonthlyPoolFirst` | treadstone/metering/services/metering_service.py:341-397 | A positive amount takes as much as possible from the monthly pool, of the rest as much as possible from the live grants, and the remainder is overage; while the pool is not empty no grant is touched |
| `Credits.GrantsWaitForMonthlyPool` | treadstone/metering/services/metering_service.py:341-397 | In every run, a charge that leaves anything in the monthly pool has touched no grant and booked no overage |
| `Credits.DrainEffect` | treadstone/metering/services/metering_service.py:362-388 | Without naming the loop: only queried grants shrink, never below zero, a later one is touched only when every earlier one is empty, and the live total falls by exactly what was served |
| `Credits.DrainServes` | treadstone/metering/services/metering_service.py:379-388 | The loop serves the smaller of the need and the live total |
| `Credits.ConsumeConserves` | treadstone/metering/services/metering_service.py:341-397 | monthly + live grants - overage falls by exactly the positive amount consumed, split without loss over the three parts |
| `Credits.ShortfallMeansExhausted` | treadstone/metering/services/metering_service.py:389-397 | A shortfall means the monthly pool and every live grant are empty |
| `Credits.ConsumeKeepsGrants` | treadstone/metering/services/metering_service.py:362-388 | No grant grows or drops below zero; expired and spent grants are untouched |
| `Credits.RunBalances` | treadstone/metering/services/metering_service.py:324-397 | Over every run of charges, resets, new grants and limit changes: consumed since the last reset = used + overage + grant deductions, and every grant stays in 0..original |
| `EarliestExpiryFirst.DrainSparesLaterGrants` | treadstone/metering/services/metering_service.py:362-388 | For every future moment, a deduction takes nothing that outlives it, or leaves nothing that does not |
| `EarliestExpiryFirst.RaceIsDominated` | treadstone/metering/services/metering_service.py:362-388 | Side by side with any rival policy, served plus what will outlive any future moment is never behind |
| `EarliestExpiryFirst.EarliestFirstIsOptimal` | treadstone/metering/services/metering_service.py:362-397 | On every run of demands and new grants, at every prefix, no deduction policy has served more; cumulative shortfall is never larger |
| `SandboxSync.DerivedStatusCases` | treadstone/infra/services/k8s_sync.py:146-190 | Exactly when a CR counts as stopped, ready, in error or being created |
| `SandboxSync.ConditionOfIsLast` | treadstone/infra/services/k8s_sync.py:146-160 | Of repeated condition types the last counts |
| `SandboxSync.ClaimOwnerIsFirst` | treadstone/infra/services/k8s_sync.py:105-115 | The claim found is the name of the first controlling SandboxClaim reference |
| `SandboxSync.NoConditionOf` | treadstone/infra/services/k8s_sync.py:146-160 | None is found if and only if no condition has the type |
| `SandboxSync.NoClaimOwner` | treadstone/infra/services/k8s_sync.py:105-115 | None is found if and only if no reference controls |
| `SandboxSync.WhereStatusesComeFrom` | treadstone/sandbox/models/sandbox.py:43-67 | The state machine, told by where each status can be reached from |
| `SandboxSync.StaleIffSmaller` | treadstone/infra/services/k8s_sync.py:51-62 | Versions are compared as the numbers they spell; a missing or other version is never stale |
| `CrPairing.CrMaps.constructor` | treadstone/infra/services/k8s_sync.py:353-370 | The two dictionaries built from the list |
| `CrPairing.CrMaps.Pop` | treadstone/infra/services/k8s_sync.py:118-143 | Popping by name, claim name, row id, then controlling claim |
| `CrPairing.FillContents` | treadstone/infra/services/k8s_sync.py:353-370 | Every named CR is in the pool, and every claim entry points at a pooled CR whose controlling claim is that key |
| `CrPairing.TakeRemovesOne` | treadstone/infra/services/k8s_sync.py:118-143 | Whichever key hits, exactly the CR handed out and its claim entry leave the pool, and the pool stays consistent |
| `CrPairing.TakeFindsIff` | treadstone/infra/services/k8s_sync.py:118-143 | Which CR a row gets, by sandbox name, claim name, id, claim entry in this order; and none if and only if the pool has none of these |
| `CrPairing.FillOwners` | treadstone/infra/services/k8s_sync.py:353-370 | A claim has an entry if and only if some named listed CR is controlled by it |
| `CrPairing.TakeMatchesWatch` | treadstone/infra/services/k8s_sync.py:208-217 | A match is one the watch handler would make, or the CR is named by the row id |
| `CrPairing.PairingSplitsPool` | treadstone/infra/services/k8s_sync.py:353-370 | Throughout a pass, matched and left over are disjoint and together the pool |
| `CrPairing.PairingIsInjective` | treadstone/infra/services/k8s_sync.py:118-143 | No CR goes to two rows |
| `CrPairing.MatchesAreJustified` | treadstone/infra/services/k8s_sync.py:118-143 | Every match of a whole pass is justified and comes from the list |
| `CrPairing.ListedCrsArePairedOnce` | treadstone/infra/services/k8s_sync.py:353-370 | The three facts for the list a pass starts from |
| `CommitLoop.LoopSurvives` | treadstone/infra/services/k8s_sync.py:372-492 | In a loop that flushes every turn and commits only some, a row's change survives exactly when its own turn or a later one commits |
| `CommitLoop.SurvivesAt` | treadstone/infra/services/k8s_sync.py:372-492 | The same, row by row |
| `CommitLoop.SecondLoopIsQuietIff` | treadstone/infra/services/k8s_sync.py:372-492 | If bad turns are those that commit and change the row again, a second loop over what survived the first changes nothing if and only if no turn was bad |
| `Reconcile.SandboxTable.Reconcile` | treadstone/infra/services/k8s_sync.py:338-492 | The pass over the table computes that loop, popping the two dictionaries as it goes; the next rows say what it achieves |
| `ReconcileEffect.OldSnapshotIsRefused` | treadstone/infra/services/k8s_sync.py:424-432 | A CR with a smaller numeric version than the row's changes nothing |
| `ReconcileEffect.CurrentCrIsFollowed` | treadstone/infra/services/k8s_sync.py:424-492 | Any other CR is followed: name, endpoint, version and, unless an operation is pending or the state machine forbids it, status and message; the row version counts status changes |
| `ReconcileEffect.MissingCrPolicy` | treadstone/infra/services/k8s_sync.py:64-81 | Without a CR a deletion is completed, a row wrongly left as deleted is marked, every other row stays |
| `ReconcileEffect.PassRowByRow` | treadstone/infra/services/k8s_sync.py:338-492 | After a pass each row is what its own CR made of it, provided its turn or a later one committed; otherwise it is what it was |
| `ReconcileEffect.PassReachesCrStatus` | treadstone/infra/services/k8s_sync.py:424-492 | A pass brings every row it may change to its CR's status and version |
| `ReconcileEffect.PassNeverGoesBack` | treadstone/infra/services/k8s_sync.py:51-62 | Whatever is listed, no row's numeric version goes back, and an old snapshot changes nothing |
| `ReconcileEffect.PassWithoutCr` | treadstone/infra/services/k8s_sync.py:372-421 | A pass completes the deletion of a row whose CR is gone and touches no other row without a CR |
| `ReconcileEffect.PassSkipsOthers` | treadstone/infra/services/k8s_sync.py:84-86 | Rows of other namespaces and rows deleted for good are not touched |
| `Reconcile.ConvergeIsStableIff` | treadstone/infra/services/k8s_sync.py:372-492 | For every row and CR, converging again changes and commits nothing if and only if the first time did not change the status for an unversioned CR while the row had another version |
| `Reconcile.TakeIsStable` | treadstone/infra/services/k8s_sync.py:118-143 | Although the pass rewrites k8s_sandbox_name, the row finds the same CR again and leaves the same pool |
| `Reconcile.ReconcileIsIdempotentIff` | treadstone/infra/services/k8s_sync.py:338-492 | For every table and every list of distinct names, a second pass changes no committed row if and only if no row is paired with such a CR |
| `Reconcile.ReconcileIsIdempotent` | treadstone/infra/services/k8s_sync.py:338-492 | With distinct, versioned CRs and no other writer, a second pass changes no committed row |
| `Reconcile.UnversionedCrIsNotIdempotent` | treadstone/infra/services/k8s_sync.py:338-492 | A table of one row and a list of one unversioned CR on which the second pass changes the table |
| `StatusUpdates.RunKeepsInv` | treadstone/infra/services/k8s_sync.py:576-607 | Every interleaving of watch handlers and reconcile passes keeps the log and the rows in agreement |
| `StatusUpdates.VersionsAreConsumedOnce` | treadstone/infra/services/k8s_sync.py:576-607 | Each row version is consumed by at most one applied write |
| `StatusUpdates.NoLostStatusUpdates` | treadstone/infra/services/k8s_sync.py:305-335 | Rows hold what replaying the applied writes gives, and each applied write from a CR is a valid transition from the status the row truly held |
| `StatusUpdates.AppliedWritesFollowTheirCause` | treadstone/infra/services/k8s_sync.py:193-335 | In every run each applied write sets the status its cause asks for: what the CR says, or an error after a disappearance |
| `StatusUpdates.UndisturbedHandlerWritesIff` | treadstone/infra/services/k8s_sync.py:193-335 | An undisturbed handler writes that status if and only if the change is due; otherwise it writes nothing |
| `ComputeSessions.SessionTable.TickMetering` | treadstone/metering/services/metering_tasks.py:74-139 | The loop ticks the table and sums each user's delta; a conflicting row is skipped and not charged; an unknown template commits nothing |
| `ComputeSessions.TickMetersOpenRows` | treadstone/metering/services/metering_tasks.py:86-126 | Closed and conflicting rows stay as they are, every other row is metered up to now, and accounted rows stay accounted |
| `MeteringTables.TickChargesBookedIff` | treadstone/metering/services/metering_tasks.py:127-131 | A tick charges what it books if and only if the template's present rate is still the session's |
| `ComputeSessions.TickChargesBookedHours` | treadstone/metering/services/metering_tasks.py:94-135 | With unchanged template specs a tick charges each user exactly 0.5 vCPU-hours + 0.125 GiB-hours of what it books |
| `ComputeSessions.TicksTelescope` | treadstone/metering/services/metering_tasks.py:94-126 | After any ticks the hours are the request from the start to the latest tick, and so are the charges |
| `ComputeSessions.CloseExtends` | treadstone/metering/services/metering_service.py:475-500 | A close books the final gap cut to 0..120 s and charges exactly that |
| `ComputeSessions.SessionAccounting` | treadstone/metering/services/metering_service.py:432-500 | Open, any ticks, close: hours = request x booked span, charges equal the booked hours, never more than wall time, equal to it exactly when the final gap is at most 120 s |
| `ComputeSessions.RolloverIsLossless` | treadstone/metering/services/metering_tasks.py:485-550 | The split rows meet at the boundary and, after any ticks and a timely close, their vCPU-hours and GiB-hours are request x whole span if and only if the session was not metered past the boundary (or the rate is zero) |
| `ComputeSessions.AdjacentRowsBook` | treadstone/metering/services/metering_tasks.py:485-550 | The hours of the two rows add up to request x span exactly when the rows do not overlap or the rate is zero |
| `ComputeSessions.RolloverSliceIsNotCharged` | treadstone/metering/services/metering_tasks.py:491-502 | Over the pair of rows, any ticks and any close, charges fall short of booked hours by exactly the slice before the boundary, so they are equal if and only if the session was already metered up to it (or costs nothing) |
| `OverlappingLeaders.NoSliceIsMeteredTwice` | treadstone/metering/services/metering_tasks.py:86-126 | Under any interleaving of tick reads, guarded tick writes and closes with fresh stamps, an open session's hours are request x (last metered - started), and it was charged exactly its hours |
| `OverlappingLeaders.ClosedSessionIsFrozen` | treadstone/metering/services/metering_service.py:461-500 | A closed session never changes again, whatever stale ticks still write |
| `OverlappingLeaders.UndisturbedTickMeters` | treadstone/metering/services/metering_tasks.py:94-131 | An undisturbed tick meters and charges an open row up to its clock |
| `OverlappingLeaders.TickWriteIsExact` | treadstone/metering/services/metering_tasks.py:105-126 | A guarded write keeps the books if and only if its reader saw the current last metering |
| `OverlappingLeaders.RepeatedStampMetersTwice` | treadstone/metering/services/metering_tasks.py:105-126 | A run in which a repeated gmt_updated lets a slice be metered twice |
| `MeteringTables.OpenKeepsUnique` | treadstone/metering/services/metering_service.py:403-446 | Opening fails exactly for an unknown template with nothing open; else the sandbox has one open row, all existing rows are as they were, an existing open row is reused, a new one starts now with the synced or static spec and nothing booked |
| `MeteringTables.CloseKeepsUnique` | treadstone/metering/services/metering_service.py:448-500 | Closing ends the open row unless it raises, touches no other row, does nothing when nothing is open |
| `MeteringTables.ClosingTwiceChargesOnce` | treadstone/metering/services/metering_service.py:448-500 | The second close finds nothing and charges nothing |
| `MeteringTables.RaisingCloseBooksForNothing` | treadstone/metering/services/metering_service.py:485-495 | A close that raises books its gap and charges nothing; a retry at any later moment raises again and books the gap once more |
| `MeteringTables.CloseRowKeepsIdentity` | treadstone/metering/services/metering_service.py:472-500 | A close raises if and only if the template is unknown and there is time to book; otherwise it ends the row now |
| `MeteringTables.CloseChargesBookedIff` | treadstone/metering/services/metering_service.py:472-495 | With a known template a close charges what it books if and only if it books nothing or the template's rate is still the session's |
| `MeteringTables.AllocateKeepsUnique` | treadstone/metering/services/metering_service.py:506-550 | Allocation adds the one active ledger or updates its backend mode; every other row is as it was |
| `MeteringTables.ReleaseKeepsUnique` | treadstone/metering/services/metering_service.py:579-615 | Release leaves no active ledger for the sandbox and the others alone |
| `MeteringTables.LedgerTickMetersActive` | treadstone/metering/services/metering_tasks.py:147-182 | The storage tick meters active entries up to now and nothing else |
| `MeteringReconcile.MeteringDb.OpenMissing` | treadstone/metering/services/metering_reconcile.py:44-66 | READY sandboxes without a session get one if their template is known; nothing else changes |
| `MeteringReconcile.MeteringDb.CloseStale` | treadstone/metering/services/metering_reconcile.py:68-93 | Exactly the open sessions of missing or non-READY sandboxes are closed, and each user is charged what those closes charge |
| `MeteringReconcile.MeteringDb.ReconcileMetering` | treadstone/metering/services/metering_reconcile.py:31-95 | From any drifted table, exactly one open session per READY sandbox and none elsewhere if and only if the pass meets no error; nothing happens on a settled table |
| `MeteringReconcile.MeteringDb.ReconcileMeteringTwice` | treadstone/metering/services/metering_reconcile.py:31-95 | After an error-free pass a second one changes and charges nothing |
| `MeteringReconcile.RepairChargesBookedHours` | treadstone/metering/services/metering_reconcile.py:68-93 | With unchanged specs the repair charges each user exactly the hours it books |
| `MeteringReconcile.MeteringDb.AllocateMissing` | treadstone/metering/services/metering_reconcile.py:110-143 | Live persistent sandboxes with a readable size and no active ledger get one |
| `MeteringReconcile.MeteringDb.ReleaseStale` | treadstone/metering/services/metering_reconcile.py:145-177 | Exactly the active ledgers with a sandbox id whose sandbox is missing, deleting or deleted are released |
| `MeteringReconcile.MeteringDb.ReconcileStorageMetering` | treadstone/metering/services/metering_reconcile.py:98-179 | From any drifted table, every live persistent sandbox with a size has exactly one active ledger and no gone sandbox has one, if and only if every size needed can be read; nothing happens on a settled table |
| `MeteringReconcile.MeteringDb.ReconcileStorageMeteringTwice` | treadstone/metering/services/metering_reconcile.py:98-179 | After a pass that could read every size a second one changes nothing |
| `StorageSize.SizeRoundTrip` | treadstone/metering/services/metering_helpers.py:72-81 | A whole number written with Gi is read back as that number |
| `StorageSize.ParsesIffSpelled` | treadstone/metering/services/metering_helpers.py:72-81 | A text is accepted as n if and only if it is blanks, at most one sign, digits with single underscores between them, blanks and Gi, spelling n |
| `Rounding.RoundingError` | treadstone/metering/services/metering_service.py:603-606 | Rounding to four decimals, half up or half even, is off by at most 1/20000 |
| `Rounding.TiesRound` | treadstone/metering/services/metering_service.py:603-606 | Ties go away from zero in the cast and to the even neighbour in quantize |
| `StorageDrift.DriftIsBounded` | treadstone/metering/services/metering_tasks.py:147-182 | After n rounded slices the recorded GiB-hours are within n/20000 of size x (last metered - allocated) |
| `StorageDrift.DriftReachesBound` | treadstone/metering/services/metering_tasks.py:153-175 | The bound is sharp: for every n there is a run of n rounded slices that is off by exactly n/20000 |
| `MeteredBilling.CreditsPayForBookedHours` | treadstone/metering/services/metering_tasks.py:94-139 | With unchanged specs, at every point of every run of openings, ticks, closes, rollovers, resets, grants and limit changes: used + overage + grant deductions since the last reset are exactly the compute-unit hours the user's sessions booked since then |
| `MeteredBilling.RunKeepsInv` | treadstone/metering/services/metering_service.py:448-500 | Every such run keeps specs, credit books and booked hours in agreement |
| `MeteredBilling.OpenRowsStayAccounted` | treadstone/metering/services/metering_tasks.py:86-126 | In every such run each open row has booked its request from its start to its last metering |
| `MeteredBilling.ClosedRowsNeverChange` | treadstone/metering/services/metering_tasks.py:86-90 | In every such run a closed row never changes again |
| `MeteredBilling.NoOpenRowNoCharge` | treadstone/metering/services/metering_tasks.py:86-139 | A user without an open session is charged nothing |
| `Calendar.PeriodBoundsAreTheMonth` | treadstone/metering/services/metering_helpers.py:84-94 | The bounds are consecutive month starts around now, and the only such pair |
| `Calendar.AddMonthAdvances` | treadstone/metering/services/metering_tasks.py:503-504 | One month later lies in the next month and is a month start exactly when the original was |
| `Calendar.ToTimeKeepsOrder` | treadstone/metering/services/metering_tasks.py:485-490 | Instants in microseconds are ordered, and equal, exactly as their calendar fields are |
| `BillingReset.PlanBilling.AdvancePeriod` | treadstone/metering/services/metering_tasks.py:586-598 | Counters, warnings and grace are cleared and the period moves on by one contiguous month |
| `BillingReset.PlanBilling.HandlePeriodRollover` | treadstone/metering/services/metering_tasks.py:470-550 | Nothing up to the boundary; past it the session is split there and the plan advanced |
| `BillingReset.PlanBilling.ResetMonthlyCredits` | treadstone/metering/services/metering_tasks.py:553-618 | For any missed months and open sessions the nested loop ends, periods are contiguous, counters cleared, no sandbox has two open sessions, the bounds are those of the month of now if and only if the plan began on a month start, and the sessions are split as the next rows say |
| `BillingReset.OneMonthSplitsTheFirst` | treadstone/metering/services/metering_tasks.py:571-598 | After one missed month the first listed session has been split at the period's end and no other row touched |
| `BillingReset.EverySessionSplitsIff` | treadstone/metering/services/metering_tasks.py:571-598 | So every open session has then been split if and only if the user had at most one |
| `BillingReset.CatchUpKeepsUnlisted` | treadstone/metering/services/metering_tasks.py:553-618 | Over any number of months, rows that were not listed are never touched |
| `BillingReset.SplitKeepsOpen` | treadstone/metering/services/metering_tasks.py:532-550 | Splitting a session keeps one open row per sandbox |
| `GracePeriod.GraceTracker.CheckGracePeriod` | treadstone/metering/services/metering_tasks.py:268-308 | One evaluated tick of one user: the new grace start and the sandboxes it tries to stop |
| `GracePeriod.GraceTracker.EnforceStop` | treadstone/metering/services/metering_tasks.py:362-424 | Every running sandbox is tried even when some stops fail; grace is cleared exactly when nothing runs afterwards |
| `GracePeriod.ForcedStopIffGraceRanOut` | treadstone/metering/services/metering_tasks.py:268-450 | Over every run, a tick stops sandboxes, and then all running ones, if and only if the total remaining is not positive and an earlier tick began a grace period that nothing ended since and more than grace_period_seconds have passed or overage exceeds 20% of the limit |
| `GracePeriod.CreditsLeftMeansNotExhausted` | treadstone/metering/services/metering_tasks.py:668-718 | While the monthly pool or any live grant has something left and nothing is overdrawn, a user is not exhausted |
| `GracePeriod.ShortfallExhausts` | treadstone/metering/services/metering_tasks.py:668-718 | A consumption that the pools could not pay leaves the user exhausted |
| `GracePeriod.GraceIsActivePeriod` | treadstone/metering/services/metering_tasks.py:311-336 | grace_period_started_at is set exactly while some tick's grace period is active, told from the events alone, and holds that tick's clock |
| `GracePeriod.ActivePeriodIsUnique` | treadstone/metering/services/metering_tasks.py:311-336 | At most one tick's grace period is active at a time |
| `UsageQuery.FiltersPartition` | treadstone/metering/services/metering_service.py:902-927 | Under three-valued logic the two filters are disjoint and miss exactly the open rows begun in a period that is over |
| `UsageQuery.RatioIsAFraction` | treadstone/metering/services/metering_service.py:163-196 | The overlap ratio lies in 0..1 |
| `UsageQuery.AggregatedRowsCountInFull` | treadstone/metering/services/metering_service.py:163-196 | Rows summed by SQL have ratio 1, or no hours |
| `UsageQuery.GetComputeUsageForPeriod` | treadstone/metering/services/metering_service.py:848-884 | The loop computes the ratio-weighted sum over overlapping rows, whose worth the next rows give |
| `UsageQuery.ShareIsProRata` | treadstone/metering/services/metering_service.py:163-196 | A session that booked a span is reported with its request over the time inside the period, scaled by booked over seen life |
| `UsageQuery.ShareIsWorthIff` | treadstone/metering/services/metering_service.py:163-196 | It is reported with exactly the time inside if and only if it booked its whole life up to the period's end (or is worth nothing) |
| `UsageQuery.UsageIsTimeInside` | treadstone/metering/services/metering_service.py:848-884 | For sessions that booked their lives, a user's usage is the request over the time each of the user's own sessions spent inside the period |
| `UsageQuery.SplitUsageIsTimeInside` | treadstone/metering/services/metering_service.py:886-941 | And the split query is 0.5 and 0.125 of it |
| `UsageQuery.GetComputeUnitHoursForPeriod` | treadstone/metering/services/metering_service.py:886-941 | The aggregate plus the loop over the remaining rows |
| `UsageQuery.SplitAgainstPlain` | treadstone/metering/services/metering_service.py:848-941 | For every table, period and moment the split query is the weighted plain sum, less the missed rows' share, plus what aggregated rows are overcounted |
| `UsageQuery.SplitIsPlainLessMissed` | treadstone/metering/services/metering_service.py:848-941 | When the aggregated rows book no hours outside their life, the difference is exactly the missed rows' share |
| `UsageQuery.SplitRefinesPlain` | treadstone/metering/services/metering_service.py:848-941 | Then, up to the period's end, it equals 0.5 V + 0.125 M of the plain sum |
| `UsageQuery.MeteredSessionsRefinePlain` | treadstone/metering/services/metering_service.py:848-941 | In particular when every aggregated row's hours are its request over a span within its life, as metering keeps them |
| `UsageQuery.LateSessionIsInNoPeriod` | treadstone/metering/services/metering_tasks.py:491-499 | A session opened at or after the boundary and then rolled over ends not after it started, and no query of any period on either side returns its hours |
| `UsageQuery.RolledOverRowIsReportedIff` | treadstone/metering/services/metering_tasks.py:491-499 | Some period on one side of the boundary returns a rolled-over row if and only if its session started before the boundary, and then the period ending there does |
| `UsageQuery.RolledOverRowIsReportedInFull` | treadstone/metering/services/metering_service.py:848-941 | The period such a session started in counts all its hours |
| `CliLogin.CliLoginFlow.Approve` | treadstone/identity/services/cli_login_flow.py:15-35 | Takes effect, and says so, exactly on a pending flow |
| `CliLogin.CliLoginFlow.Consume` | treadstone/identity/services/cli_login_flow.py:38-47 | Takes effect, and says so, exactly on an approved flow |
| `CliLogin.CliLoginFlow.Fail` | treadstone/identity/api/auth.py:216-226 | Overwrites whatever is stored once an earlier read was pending |
| `CliLogin.AtMostOneToken` | treadstone/identity/api/cli_auth.py:117-145 | In any interleaving at most one token, always for the single user who approved |
| `CliLogin.ApprovalIsFinal` | treadstone/identity/services/cli_login_flow.py:15-47 | The user never changes after approval, no run returns to pending, an issued token stays issued |
| `CliLogin.TokenUserApprovedInTime` | treadstone/identity/api/cli_auth.py:57-65 | The approving request had read the flow pending and unexpired |
| `CliLogin.UndisturbedLoginSucceedsIff` | treadstone/identity/api/cli_auth.py:57-145 | An undisturbed login yields the user's token if and only if the approval was asked for within ten minutes |
| `CliLogin.RefusedExchangeAndFailure` | treadstone/identity/api/cli_auth.py:133-136 | A deleted user gets no token; an undisturbed failure ends a pending flow |
| `CliLogin.FailedIsDead` | treadstone/identity/api/auth.py:216-226 | A failed flow stays failed and issues no further token |
| `CliLogin.FailureOverwritesApproval` | treadstone/identity/api/auth.py:216-226 | A run in which a late failure wipes out an approval for good |
| `CliLogin.UncontestedApprovalSurvives` | treadstone/identity/api/cli_auth.py:117-145 | An approval with no failure under way stays until it is used for its one token |
| `CliLogin.ContestedApprovalCanBeLost` | treadstone/identity/api/auth.py:216-226 | With a failure under way, the next step can always take the approval away |

## Left out

- Kubernetes HTTP calls, manifests and Lease timestamp text: the Lease is a compare-and-swap register, CRs are values, times are integers.
- Observers, audit rows, logging, emails, OAuth, secrets of CLI flows, routers, CLI, SDK and web UI: plumbing.
- A `shutdown()` that arrives while `run()` is inside an election attempt; a supervisor that a raising task strands is, in `SupervisedCluster`, a replica that never finishes stopping.
- `_delete_sandbox_row`, the lifecycle task and user requests as further status writers in `StatusUpdates`: they do not use the version check.
- Rounding of credits and compute hours to four decimals in the database and in Python's finite-precision division: these are exact reals; rounding is modelled for the storage ledger only.
- StorageDrift.DriftIsBounded: a release whose clock reads earlier than the last metering is excluded, because the entry's last metering then moves back.
- BillingReset.PlanBilling.ResetMonthlyCredits: hours across several missed months are not claimed to be conserved, because the loop advances the plan without splitting every session.
- UsageQuery.SplitRefinesPlain: asks of the rows SQL adds up in full that they do not end in the future and book no hours over no time; `SplitAgainstPlain` says what happens without that.
- Rounding.RoundingError: PostgreSQL's own intermediate precision in the storage tick's division is taken as exact.
- StorageSize.ParsesIffSpelled: digits outside ASCII, and Python's limit on very long integers, are not modelled.
- Database errors inside the repair hooks; only unknown templates and unreadable sizes raise there.
- The storage period query, usage summaries and listings, quota and duration checks, 80% and 100% warnings, tier changes, welcome bonuses and the template-spec sync: reports over, limits on and settings of the state modelled here.
