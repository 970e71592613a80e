# A verified model of the TiDB operator's state machines

The TiDB operator runs database clusters on Kubernetes. This project models the parts of it that
decide and keep state, and proves what they promise over whole runs.

**Rolling updates** (`Rollout`, `Selection`, `Choices`, `Fleets`, `Lineages`, `Actors`, `Topology`,
`Tracking`, `Executors`, `Builders`, `Instances`, `Ordering`). The executor's loop compares counters
(`Rollout.Decide`); the actor moves instances between its sets of updated, outdated, offlining and
deleted instances; selectors pick the instance to act on. `Rollout` proves the loop's theorems on
counters. `Tracking`, `Executors` and `Builders` prove that the counters follow the actor's sets, so
that the theorems hold of real instances.

- The availability floor is false as it stands: a group that starts above its maximum without slack
  can lose one instance below it. `Tracking.FloorIsLost` shows a fleet of four where it does,
  `Rollout.FloorExactly` gives the exact condition for an arbitrary actor, and
  `Rollout.AvailabilityFloor` says what can happen at worst.
- Where unavailable instances are scaled in first the floor holds more often, and
  `Rollout.CarefulFloorExactly` says exactly when. `Builders.UpdaterTask` proves that these are the runs
  of a group controller whose own scale-in policy is the topology policy, as it is for all groups but PD
  and TSO (which also prefer members that do not lead), if its group declares no topology, no volume
  exceeds its request, no updated instance is reported both stopped and ready, and the conditions of ready
  instances carry their times. Every controller waits until no instance is ready but not available
  (pkg/controllers/tidbgroup/tasks/updater.go:57-63). A group that declares topologies scales in by
  topology first; `Topology.SpreadLeavesAllExactly` says when that leaves the built-in order alone.
- That counters follow the sets is false when instances are recreated instead of updated in place and
  the controller's policies leave no stopped instance among the candidates: a running instance is
  taken out of service unseen. `Tracking.RecreateTracksExactly` gives the exact condition,
  `Tracking.RecreateLosesTrack` an input, and `Executors.Executor.Do` bounds the loss.
- A store drains before it is deleted, over whole reconciles (`Lineages`, `Executors.Executor.Do`), and
  the loop waits only without slack (`Rollout.WaitsExactly`). `Choices` says by the instances' own
  conditions, priorities, costs and ages whom each selector takes.
- A controller's policies may change with the hooks that ran, as the topology policy does: they are
  functions of the hooks so far.

**Adoption of standby TiDBs** (`Reloadable`, `Registry`, `AdoptionIndex`, `Adoption`). The manager
keeps records with two indexes of keys; groups lock instances and get a function to release them.
`Registry` states the operations on values and proves exclusion, distinctness, stability and freedom
from restarts; `Adoption` proves that the mutable manager computes them and keeps its indexes right.
`Reloadable.ReloadsExactly` says in terms of the template's fields what needs no restart.
A TiDB whose mode is unset is registered as adoptable although the template comparison treats it as
a normal one; `Reloadable.HashDecidesReload` says exactly when adopting it needs no restart. The API
server never delivers such a TiDB, because the CRD defaults the mode to Normal
(api/core/v1alpha1/tidb_types.go:211).

**Overlays** (`Overlay`, `OverlayCode`, `PodOverlay`, `OverlayLaws`, `Strings`). All generated overlay
functions as one merge over a schema: scalars, values and collections replaced as a whole, pointers,
granular maps, keyed lists, structs. The overlay wins wherever it sets something and nothing else
changes (`OverlayLaws`); the merge is associative and idempotent; and an empty overlay changes nothing
exactly if no struct that is replaced as a whole sits bare in the value. A pod spec has none
(`PodOverlay.PodSpecIsPodSpec`); a config map volume source has one, and
`Overlay.ConfigMapNameIsErased` shows what that does. The code computes the merge where list keys are
unique and hold no comma; `OverlayCode` says what it computes on any lists.

**Pollers** (`PollerReplay`, `PollerShutdown`). Replaying a poller's events on the synced listing
gives what the poller holds, over every sequence of polls and in every iteration order, until the
poller is cancelled and may drop events. The goroutines of one run are modelled as interleaved steps:
none panics, events arrive as a prefix in order, and a cancelled run can always finish by itself.

**Features** (`FeatureLog`, `FeatureGates`). The hash-chained feature log, the lint that accepts only
appended revisions, and the propagation of cluster gates to groups.

**Volumes** (`Volumes`). The revision protocol in a claim's annotations, with the operator stopping
between any two updates. A claim may look modified for a class the cloud was not last asked for;
`Volumes.RecordsWhatWasAskedExactly` says exactly when it does not.

**Backup retries** (`BackupRetry`). The retry log with its limits and its 64-bit delays.

API calls may fail at any point; the clock, random choices and answers of other systems are
parameters or arbitrary values. Map iterations take keys in arbitrary order.

## Model

| member | source | states |
|---|---|---|
| `Rollout.HeadIsSane` | pkg/updater/executor.go:100-212 | at every loop head of every run no set has a negative count, the count of stopped outdated instances is at most that of outdated ones, and the policy is unchanged |
| `Rollout.RunIsBounded` | pkg/updater/executor.go:100-212 | outdated + abs(update - desired) falls with every actor call and never below zero, so a run makes at most as many calls as that is at its start |
| `Rollout.RunKeepsSide` | pkg/updater/executor.go:100-212 | actual - maximum never changes sign in a run, and update + outdated never exceeds max(initial, desired + maxSurge) |
| `Rollout.PhaseOrder` | pkg/updater/executor.go:105-211 | no ScaleInUpdate after a ScaleOut or an Update, and no ScaleOut after any other call |
| `Rollout.CommentedDerivations` | pkg/updater/executor.go:113-192 | the loop's comments: at the maximum with enough updated instances update == desired and the outdated ones are surplus; above it without surplus updates some instance is outdated |
| `Rollout.WaitsExactly` | pkg/updater/executor.go:105-170 | a pass of a group that has not converged waits if and only if it is at the maximum, no more than the minimum is available, and either instances are missing and nothing outdated is down, or all are updated and some of them are not up yet |
| `Rollout.CallsAreWarranted` | pkg/updater/executor.go:105-205 | what each call says about the counters: nothing is waited for with slack left, a running outdated instance is updated only with slack and if none is counted as down, updated ones are scaled in only above the maximum and the desired number, and outdated ones only above the desired number |
| `Rollout.StopsOnlyWithoutSlack` | pkg/updater/executor.go:171-211 | the loop gives up after a call only if that call took an available instance and left no slack |
| `Rollout.FinishedMeans` | pkg/updater/executor.go:100-225 | a finished run has converged with every updated instance available, or leaves no slack, or has nothing but updated instances to wait for |
| `Rollout.AvailabilityFloor` | pkg/updater/executor.go:100-212 | tracked availability never drops below min(initial, minimum), except by exactly one, in the last step of a run that started above the maximum without slack |
| `Rollout.FloorExactly` | pkg/updater/executor.go:100-212 | all runs from a state keep the floor if and only if it is at or below the maximum, has slack, or would scale in only outdated instances that are already down |
| `Rollout.CarefulFloorExactly` | pkg/updater/executor.go:171-211 | all runs that scale in unavailable instances first keep the floor if and only if the start has converged, is at or below the maximum, has slack, or at least as many outdated instances are down as go before the maximum is reached |
| `Rollout.DownOutdatedCostNothing` | pkg/updater/executor.go:171-211 | above the maximum with every outdated instance down, scaling in keeps the floor throughout |
| `Rollout.AlwaysActs` | pkg/updater/executor.go:100-212 | with maxSurge + maxUnavailable >= 1 and all updated instances available, a group that has not converged gets an actor call |
| `Rollout.ReconcileMakesProgress` | pkg/updater/executor.go:100-225 | such a reconcile does nothing but clean up if converged, and otherwise ends strictly closer to the goal |
| `Rollout.RolloutMakesProgress` | pkg/updater/executor.go:100-225 | over a rollout, whatever outdated instances do between reconciles, the distance left is at most the initial one less the reconciles done |
| `Rollout.RolloutConverges` | pkg/updater/executor.go:100-225 | after outdated + abs(update - desired) reconciles the group has converged and every later reconcile only cleans up |
| `Rollout.StuckExactly` | pkg/updater/executor.go:105-170 | a pass of a group with all updated instances available waits if and only if it allows neither surge nor unavailability, nothing outdated is down and some instance is still to be updated |
| `Rollout.StuckForever` | pkg/updater/executor.go:100-225 | a group left to itself then never gets an actor call in any reconcile, and otherwise gets one in the first |
| `Instances.RemainingTime` | pkg/runtime/common.go:26-76 | an instance is available exactly if it is ready and its readiness, and for a TiKV its leaders' return too, has lasted long enough; unchanged, it is unavailable until the reported time has passed, and from then on available unless a TiKV's second timer still runs |
| `Instances.RetryIfReadyButNotAvailable` | pkg/apiutil/core/v1alpha1/instance.go:238-256 | the longest remaining time among the unavailable instances, and zero if none has any |
| `Instances.NothingToWaitFor` | pkg/apiutil/core/v1alpha1/instance.go:238-256 | once no time remains, a ready instance is and stays available exactly if the conditions that have to last carry times, and a TiKV's leaders are back |
| `Instances.ConditionsExactly` | pkg/runtime/zz_generated.runtime.tikv.go:107-136 | ready, stopped and up to date in terms of conditions, generations and revisions; a condition counts only if observed for the current generation |
| `Instances.ServesExactly` | pkg/runtime/common.go:26-76 | an instance serves exactly if it is up to date, its readiness has lasted, and a TiKV's leaders have been back long enough too |
| `Selection.FilterBy` | pkg/updater/selector.go:256-286 | a filter keeps exactly the eligible instances in order: those without the annotation, or those of the revision |
| `Selection.ApplyFilters` | pkg/updater/selector.go:76-81 | filters in turn keep exactly the instances eligible for all |
| `Selection.PreferTrait` | pkg/updater/selector.go:134-156 | the policies that look for a trait return exactly the instances with it, possibly none |
| `Selection.PreferNewer` | pkg/updater/selector.go:113-131 | the running extreme returns exactly the instances that nobody was created after, in order |
| `Selection.PreferPodDeletionCost` | pkg/updater/selector.go:208-241 | exactly the instances that nobody costs less than, in order |
| `Selection.PreferPriority` | pkg/updater/selector.go:161-205 | only valid priorities compete and the lowest win: nobody kept has a higher one than another; without any, everybody stays |
| `Selection.Prefer` | pkg/updater/selector.go:113-300 | every policy returns exactly the instances it prefers, in order |
| `Selection.Choose` | pkg/updater/selector.go:83-109 | nothing is chosen exactly if nothing passes the filters; stopping early at one candidate changes no choice |
| `Selection.NarrowKeepsMinima` | pkg/updater/selector.go:83-109 | applying built-in policies from last to first keeps exactly the lexicographic minima of their ranks |
| `Selection.ChoiceIsLexicographicMinimum` | pkg/updater/selector.go:83-109 | the choice from a name-sorted list is the unique first instance by ranks, then name |
| `Selection.UpdatePrefersStopped` | pkg/updater/builder.go:80-102 | the update selector picks a stopped instance exactly if the controller's policies leave one; without such policies whenever there is one |
| `Selection.ScaleInPrefersDown` | pkg/updater/builder.go:88-97 | among instances without excess capacity the built-in scale-in order picks a stopped one if there is one, then one that is not ready or not up to date |
| `Choices.UpdateOrder` | pkg/updater/builder.go:80-86 | in terms of the instances' own conditions, the update selector takes, out of what the controller's policies leave, a stopped instance first, then one that is not ready or not up to date, then the lowest valid priority, then the lowest cost, then the first name |
| `Choices.ScaleInOrder` | pkg/updater/builder.go:88-97 | the scale-in selector takes one with excess volume capacity first, then goes by the same order, and among equal costs takes the one created last |
| `Choices.TakenBackInOrder` | pkg/updater/builder.go:99-102 | of the offlining instances that pass every filter the lowest valid priority is taken back, then the lowest cost, then the first name |
| `Choices.ScaleInTakesFirst` | pkg/updater/selector.go:83-109 | the scale-in order for choices out of a fleet's set, with built-in policies only |
| `Choices.UpdateTakesFirst` | pkg/updater/selector.go:83-109 | the update order for choices out of a fleet's set, with built-in policies only |
| `Fleets.PicksStoppedExactly` | pkg/updater/builder.go:80-102 | the update policies pick a stopped instance out of every set that has one exactly if the controller's own always leave one; the built-in ones alone do |
| `Fleets.BuiltInScaleIn` | pkg/updater/builder.go:88-97 | with controllers' policies that let every part of such a set through, out of every part stopped instances are scaled in first, and those that are not ready or up to date before others if a stopped one is never ready |
| `Fleets.ListIsSorted` | pkg/updater/state.go:60-69 | the listing of a set of instances is sorted by name |
| `Fleets.ListHolds` | pkg/updater/state.go:46-73 | the listing holds exactly the instances of the set |
| `Fleets.CountWith` | pkg/updater/state.go:46-48 | adding an instance changes the set's size, its stopped and its idle instances by exactly that instance |
| `Fleets.CountWithout` | pkg/updater/state.go:50-54 | removing an instance changes the same counts by exactly that instance |
| `Fleets.AddedIsSound` | pkg/updater/actor.go:157-190 | a new instance with a fresh name keeps the sets pairwise disjoint and apart from what was removed |
| `Fleets.RevivedIsSound` | pkg/updater/actor.go:142-155 | taking back an offlining instance keeps them so |
| `Fleets.ReplacedIsSound` | pkg/updater/actor.go:358-372 | updating an instance in place keeps them so |
| `Fleets.SetAsideIsSound` | pkg/updater/actor.go:234-310 | setting an outdated instance aside keeps them so |
| `Fleets.ScaledInUpdateIsSound` | pkg/updater/actor.go:196-224 | scaling in an updated instance keeps them so |
| `Fleets.RecreatedIsSound` | pkg/updater/actor.go:331-341 | recreating an instance keeps them so, whether the replacement is new or taken back, and forgets no name |
| `Lineages.DrainsFirst` | pkg/updater/actor.go:400-448 | a store that supports going offline, was not told to and is not drained is not deleted when it is scaled in: it is marked offline and kept among the offlining ones; an outdated one is deleted directly only under that option |
| `Lineages.DrainedIsDeleted` | pkg/updater/actor.go:400-448 | any other instance is deleted at once and none is marked offline |
| `Lineages.CleanupDrains` | pkg/updater/actor.go:378-390 | cleaning up marks a store that has to drain offline instead of deleting it, unless outdated ones are deleted directly, and deletes any other |
| `Lineages.LineageGrows` | pkg/updater/actor.go:157-372 | over a run's calls, every updated instance is the one it was or as the factory makes it, and nothing is deleted that had to drain at the start |
| `Lineages.CleanupDeletes` | pkg/updater/actor.go:378-390 | cleaning up at the end of such a run deletes nothing that had to drain either |
| `Actors.Actor.MakeNew` | pkg/updater/actor.go:157-190 | a created instance has a name never used before |
| `Actors.Actor.ChooseToCancelOffline` | pkg/updater/actor.go:133-140 | an instance is found exactly if one passes every filter, and it is the policies' choice among those |
| `Actors.Actor.CancelOneOfflining` | pkg/updater/actor.go:142-155 | it moves, renewed under its name, from the offlining to the updated set |
| `Actors.Actor.ScaleOut` | pkg/updater/actor.go:157-190 | the selector's choice among the eligible offlining instances is taken back, keeping name, topology and version, exactly if there is one; else one with a fresh name is added |
| `Actors.Actor.Create` | pkg/updater/actor.go:157-190 | a created or adopted instance is as the factory makes it, under a name never used before, and joins the updated set |
| `Actors.Actor.ScaleInUpdate` | pkg/updater/actor.go:196-224 | the selector's choice leaves the updated set, draining or deleted, and its availability is reported |
| `Actors.Actor.ScaleInOutdatedNamed` | pkg/updater/actor.go:234-310 | the named instance leaves the outdated set, put aside for Cleanup if deferred and taken away at once if not |
| `Actors.Actor.ScaleInOutdated` | pkg/updater/actor.go:230-310 | the selector's choice moves from the outdated set to those awaiting deletion and nothing is deleted |
| `Actors.Actor.DeleteInstance` | pkg/updater/actor.go:400-448 | an instance that supports going offline, was not told to and is not drained is marked offline and not deleted, unless it is outdated and those are deleted directly; any other is deleted and not marked; a failed call changes nothing |
| `Actors.Actor.Recreate` | pkg/updater/actor.go:331-341 | one instance taken away at once and one scaled out; a failure leaves nothing or the first half |
| `Actors.Actor.UpdateInPlace` | pkg/updater/actor.go:344-372 | the instance moves from the outdated to the updated set, keeping name, topology and version |
| `Actors.Actor.Update` | pkg/updater/actor.go:321-372 | in place, recreated, or the mismatch error exactly where a stopped instance was wanted, a running one chosen, and instances are updated in place |
| `Actors.Actor.Cleanup` | pkg/updater/actor.go:378-390 | everything awaiting deletion is deleted or marked offline; if a call fails, what was done is a part of that |
| `Topology.SomeoneMayGo` | pkg/utils/topology/scheduler.go:160-193 | with admitted weights, as long as an instance is placed some instance may be deleted next |
| `Topology.LastInstanceIsSpared` | pkg/utils/topology/scheduler.go:160-193 | whatever the weights and counts, the only instance of a topology is named only if every topology in use is down to one |
| `Topology.EvenSpreadIsKept` | pkg/utils/topology/scheduler.go:160-193 | with equal weights, deleting any instance that is named keeps topologies that differ by at most one instance so |
| `Topology.MostOverItsShare` | pkg/utils/topology/scheduler.go:160-193 | an instance outside the declared topologies is named before others; else a named instance is in a topology that exceeds its weighted share by the most among those with two or more instances |
| `Topology.Scheduler.constructor` | pkg/utils/topology/scheduler.go:39-73 | no instance is placed, and a topology that is declared twice has the later index |
| `Topology.IndexOfExactly` | pkg/utils/topology/scheduler.go:93-109 | an instance belongs to the last declared topology that is its own |
| `Topology.Scheduler.Add` | pkg/utils/topology/scheduler.go:93-109 | the instance moves to its topology, or to the unknown one, and sets and totals follow |
| `Topology.Scheduler.Del` | pkg/utils/topology/scheduler.go:111-124 | the instance leaves, and sets and totals follow |
| `Topology.Scheduler.BestSpots` | pkg/utils/topology/scheduler.go:166-183 | the running maximum finds exactly the topologies in use with the best score |
| `Topology.Scheduler.NextDel` | pkg/utils/topology/scheduler.go:160-193 | sorted, the instances outside the declared topologies if there are any, else those of the topologies with the best score |
| `Topology.NewTopologyPolicy` | pkg/updater/policy/topology.go:43-69 | refused exactly if a declared topology is empty; else every instance is placed that is not going away |
| `Topology.PlacedExactly` | pkg/updater/policy/topology.go:43-69 | placed are exactly the instances that are not being deleted, marked for it, offline or drained |
| `Topology.TopologyPolicy.Add` | pkg/updater/policy/topology.go:71-87 | the policy follows the hook |
| `Topology.TopologyPolicy.Update` | pkg/updater/policy/topology.go:89-98 | the policy follows the hook |
| `Topology.TopologyPolicy.Delete` | pkg/updater/policy/topology.go:100-103 | the policy follows the hook |
| `Topology.LastHookDecides` | pkg/updater/policy/topology.go:71-103 | the last hook about a name decides where it is: added and updated instances are in their own topology, deleted ones nowhere |
| `Topology.UnmentionedStays` | pkg/updater/policy/topology.go:71-103 | a name that no hook is about stays where it was |
| `Topology.TopologyPolicy.PreferDeletion` | pkg/updater/policy/topology.go:121-141 | after any hooks the preference is the function of those hooks that the actor's theorems speak of |
| `Topology.SpreadLeavesAllExactly` | pkg/updater/policy/topology.go:121-141 | the policy lets every part of a set through exactly if it prefers all of the set or none of it |
| `Topology.NoTopologies` | pkg/updater/policy/topology.go:100-141 | with no topology declared, after any hooks, the policy lets every instance through that was not deleted |
| `Tracking.ScaleOutMoves` | pkg/updater/executor.go:106-111 | a successful scale-out moves counters and sets in step: sizes agree, and no more is claimed available than serves, up to the running instances that were recreated |
| `Tracking.UpdateMoves` | pkg/updater/executor.go:113-141 | so does an update in place |
| `Tracking.ScaleInUpdateMoves` | pkg/updater/executor.go:171-187 | so does scaling in an updated instance |
| `Tracking.ScaleInOutdatedMoves` | pkg/updater/executor.go:142-204 | so does setting aside an outdated instance |
| `Tracking.RecreateTracksExactly` | pkg/updater/actor.go:321-372 | without updating in place, the counters still track the sets after an update that wanted a stopped instance if and only if the controller's policies leave one among the candidates; otherwise availability is claimed as before while service falls by one unless the replacement serves already, be it new or taken back |
| `Tracking.EveryWrongChoiceLosesTrack` | pkg/updater/actor.go:321-341 | every set of outdated instances out of which the policies pick a running one although another is stopped, together with one updated instance that is not ready yet and a surge of one, gives counters and sets in step whose next update loses track |
| `Tracking.RecreateLosesTrack` | pkg/updater/actor.go:321-341 | a fleet of three with a surge of one, its outdated instances in two zones and a policy that prefers the zone of the running one, where they do |
| `Tracking.FloorIsLost` | pkg/updater/executor.go:188-204 | a fleet of four with a surge of one, where two are desired and the two updated ones are not ready yet, with counters in step: whatever the built-in policies choose is running, the loop sets it aside and service falls below the floor |
| `Tracking.GentleScaleInUpdate` | pkg/updater/executor.go:171-187 | above the maximum, with exact counters, no updated instance ready but not available and policies that after any hooks take unavailable instances first out of those that the hooks were not told are gone, an updated instance counted as available is scaled in only if none is counted as unavailable, and all of this still holds afterwards |
| `Tracking.GentleScaleInOutdated` | pkg/updater/executor.go:188-204 | likewise for outdated instances |
| `Tracking.RecreateMoves` | pkg/updater/actor.go:331-341 | a recreated running instance costs the counters at most that one instance of accuracy |
| `Tracking.SomethingToChoose` | pkg/updater/executor.go:105-205 | whenever the loop asks for an instance there is one, so the selectors' errors cannot occur |
| `Tracking.StoppedIsChosen` | pkg/updater/builder.go:80-102 | with policies that pick a stopped instance where there is one, an update that wants a stopped instance gets one, so the mismatch error cannot occur |
| `Tracking.CleanupIsSafe` | pkg/updater/actor.go:378-448 | cleaning up deletes nothing that the same actor marked offline |
| `Tracking.ServiceFloor` | pkg/updater/executor.go:88-225 | the number of instances really in service is at every loop head at least the floor less one, and at least the floor wherever the counters guarantee it for the run, careful or not, less the running instances that were recreated |
| `Executors.Executor.Pass` | pkg/updater/executor.go:101-211 | one pass makes the decided call and waits exactly where the loop does, which is only if available instances are at or below the minimum; an error leaves the counters alone and deletes at most a running instance that was to be recreated; an API error is reported exactly if a call failed |
| `Executors.Executor.Loop` | pkg/updater/executor.go:100-212 | the passes up to the goal or a wait are one run of the counters, recorded together with the service at every head, that deletes no store that has to drain |
| `Executors.Executor.Do` | pkg/updater/executor.go:88-225 | in every mode and with any policies, whether or not they change with the hooks, the loop terminates, is a run of the counters and ends with counts that are the sets' sizes; service keeps the floor up to the running instances that were recreated, which are at most as many as were counted as down, and none if instances are updated in place or the policies pick stopped ones; it waits only with availability at or below the minimum or for nothing but updated instances, and is done only with the desired number updated, all available and everything that awaited deletion deleted or draining; no store that has to drain is deleted unless it is outdated and those are deleted directly; what was not updated before is as the factory makes it; nothing else but surplus updated instances is deleted before the goal is reached; nothing set offline is deleted; nothing is forgotten; a run that starts with policies that take unavailable instances first scales them in first throughout; an API error is reported exactly if a call failed |
| `Builders.Split` | pkg/updater/builder.go:222-248 | every instance goes to the one set its role says, in order |
| `Builders.NewState` | pkg/updater/state.go:36-44 | instances by name |
| `Builders.CountUnavailableUpdate` | pkg/updater/builder.go:251-262 | the number of updated instances that do not serve |
| `Builders.CountUnavailableOutdated` | pkg/updater/builder.go:265-274 | the number of outdated instances that are not running |
| `Builders.InitialFleetIsSound` | pkg/updater/builder.go:222-248 | the initial sets are pairwise disjoint and nothing in them was removed |
| `Builders.InitialFleetHolds` | pkg/updater/builder.go:222-248 | which set an instance is in, by its own fields: going away is ignored, marked for deletion or drained awaits deletion, told to go offline is offlining, and the others are updated or outdated by revision |
| `Builders.BuildActor` | pkg/updater/builder.go:77-120 | the actor starts with exactly the split sets and the built-in policies before the controller's, whatever the hooks |
| `Builders.Build` | pkg/updater/builder.go:77-134 | the executor's counters are exactly the counts of the split sets, and what they call available is exactly what serves; an orderly fleet is scaled in unavailable instances first |
| `Builders.OrderlyIsGentle` | pkg/updater/builder.go:88-134 | where the controller's policies let every instance through that they were not told is gone, none has excess capacity, a stopped one is never ready and none is ready but not yet available, the policies take unavailable instances first |
| `Builders.WaitedIsPlain` | pkg/apiutil/core/v1alpha1/instance.go:238-256 | once the controller has nothing to wait for, no updated instance is ready but not available, then or later, exactly if the conditions of the ready ones are dated |
| `Builders.SpreadIsOrderly` | pkg/controllers/tidbgroup/tasks/updater.go:57-129 | an ordinary fleet of a group without topologies, whose controller has nothing to wait for, is orderly under the topology policy, whatever hooks run |
| `Builders.UpdaterTask` | pkg/controllers/tidbgroup/tasks/updater.go:57-129 | the task waits exactly while some instance is ready but not available; otherwise it is a reconcile, and for an ordinary fleet of a group without topologies the instances in service keep the floor wherever runs that scale in unavailable instances first do, up to the running instances that were recreated |
| `Builders.Update` | pkg/controllers/tidbgroup/tasks/updater.go:100-128 | building an executor for the instances there are and running it is a finished run from the counts of the fleet found to those of the fleet left, whose service at every head is at least min(service found, desired - maxUnavailable) less one and the recreated ones and keeps the floor as the executor promises, and a careful run for an orderly fleet; no store that has to drain is deleted; with a factory of the wanted revision every updated instance is of that revision at the end |
| `Builders.FleetsConverge` | pkg/updater/executor.go:88-225 | over reconciles of real fleets, with updated instances available in between and outdated ones doing anything, after outdated + abs(update - desired) reconciles nothing is outdated, the desired number is updated and reconciles only clean up |
| `Reloadable.ConvertVolumes` | pkg/reloadable/common.go:62-71 | volumes without their sizes and classes |
| `Reloadable.ConvertOverlay` | pkg/reloadable/common.go:28-60 | overlays without metadata and claims, whether set or not |
| `Reloadable.ConvertTiDBTemplate` | pkg/reloadable/tidb.go:97-118 | the template with everything that needs no restart blanked |
| `Reloadable.EqualTiDBTemplate` | pkg/reloadable/tidb.go:120-149 | equality of converted templates under the standby-to-normal rule |
| `Reloadable.TemplatesExactly` | pkg/reloadable/tidb.go:97-149 | in fields: templates are equal for a reload if and only if configs agree under the Restart strategy, volumes agree but for size and class, overlaid pods but for metadata and sidecar images, slow logs but for their images, all other fields but server labels, and, unless a standby instance becomes a normal one, mode, keyspace, labels and annotations but for the ignored ones |
| `Reloadable.FeaturesExactly` | pkg/features/reload.go:25-48 | a feature change is refused if and only if feature modification is on and some changed feature is listed for the component |
| `Reloadable.ReloadsExactly` | pkg/reloadable/tidb.go:33-39 | a TiDB is reloaded without a restart if and only if both hold |
| `Reloadable.HashDecidesReload` | pkg/reloadable/tidb.go:33-39 | with an injective hash, equal hashes allow a reload exactly if the instance is a standby one or keyspace, labels and annotations agree too |
| `Registry.AdoptedIsKnown` | pkg/adoption/manager.go:192-248 | what is handed out is registered, and adoptable by or reserved for the group |
| `Registry.AdoptedIsInScope` | pkg/adoption/manager.go:192-253 | whatever is handed out, freshly locked or reserved, has the group's namespace and cluster and no other owner |
| `Registry.RefusedExactly` | pkg/adoption/manager.go:192-248 | nothing is handed out if and only if the group wants standby instances itself, or has too few reservations and no free instance of its namespace and cluster has its hash |
| `Registry.AdoptsInOrder` | pkg/adoption/manager.go:200-241 | the free instance handed out has the least key, and reservations are handed out in the order of their keys |
| `Registry.EventsChangeOneEntry` | pkg/adoption/manager.go:110-248 | each event changes one record at most, and how: a normal or deleted instance is forgotten, any other is known in its latest version with its lock kept; locks are taken if free and given back |
| `Registry.OnlyAdoptableIsKnown` | pkg/adoption/manager.go:129-186 | over any sequence of events no normal or deleting instance is known, and every record is under its own key |
| `Registry.AdoptionNeverRestarts` | pkg/adoption/manager.go:223-253 | a freshly locked standby TiDB has the group's namespace and the group's cluster and needs no restart |
| `Registry.LockSurvivesEvent` | pkg/adoption/manager.go:110-248 | no event but its own release or deletion ends a lock or hands its instance to another group |
| `Registry.LockExcludes` | pkg/adoption/manager.go:110-248 | over any sequence of events a locked instance is returned to nobody but its owner |
| `Registry.HarmlessExactly` | pkg/adoption/manager.go:110-248 | an event keeps a group's reservations exactly if it neither forgets nor releases one, nor moves an instance the group has locked into or out of its namespace and cluster |
| `Registry.RegisteringIsHarmless` | pkg/adoption/manager.go:129-186 | registering an instance that is not forgotten and keeps its cluster always does |
| `Registry.CallsHandOut` | pkg/adoption/manager.go:192-248 | during a reconciliation, with harmless events in between, a group's reservations are the old ones plus what was handed out |
| `Registry.AdoptionsAreDistinct` | pkg/adoption/manager.go:192-248 | calls with indexes 0 to n-1, with any registrations, releases and other groups' calls in between that spare the group's reservations, return pairwise distinct instances although locks are inserted in sorted order |
| `Registry.RepeatIsStable` | pkg/adoption/manager.go:192-248 | repeating them, with such events in between again, returns the same instances and takes no lock |
| `Registry.ReturningInstanceRepeats` | pkg/adoption/manager.go:200-221 | why: a locked instance that comes back into the cluster with a smaller key makes two calls return the same instance |
| `AdoptionIndex.AgreeEmpty` | pkg/adoption/manager.go:59-66 | empty indexes agree with an empty registry |
| `AdoptionIndex.AgreeDeleted` | pkg/adoption/manager.go:68-77 | deleting a record and its index entry keeps index agreement: unlocked records exactly in the standby group of their hash, locked ones exactly in their owner's |
| `AdoptionIndex.AgreeInserted` | pkg/adoption/manager.go:129-186 | so does inserting a record |
| `AdoptionIndex.AgreeReplaced` | pkg/adoption/manager.go:129-186 | so does replacing an instance, moving it between standby groups if its hash changed |
| `AdoptionIndex.AgreeLocked` | pkg/adoption/manager.go:79-83 | so does locking |
| `AdoptionIndex.AgreeUnlocked` | pkg/adoption/manager.go:85-107 | so does unlocking |
| `AdoptionIndex.GroupedIsKnown` | pkg/adoption/manager.go:200-221 | every grouped key has a record, so the lookup said to always exist does |
| `AdoptionIndex.MatchingIsReserved` | pkg/adoption/manager.go:200-221 | the adopting group's keys that match the owner are exactly its reservations in order |
| `AdoptionIndex.FirstInScope` | pkg/adoption/manager.go:223-241 | the first standby key in scope is the least adoptable one, and if none is in scope nothing is adoptable |
| `Adoption.Groups.Add` | pkg/adoption/groups.go:31-41 | a name joins a group; empty names are ignored |
| `Adoption.Groups.Del` | pkg/adoption/groups.go:43-52 | a name leaves its group |
| `Adoption.Groups.List` | pkg/adoption/groups.go:54-63 | a group's names sorted |
| `Adoption.Manager.DeleteKey` | pkg/adoption/manager.go:68-77 | the record and its index entry go, and index agreement stays |
| `Adoption.Manager.Register` | pkg/adoption/manager.go:129-186 | the registry changes as specified for every state of record, mode and lock, and the indexes follow |
| `Adoption.Manager.RegisterAll` | pkg/adoption/manager.go:110-117 | the given instances are registered in turn |
| `Adoption.Manager.Unregister` | pkg/adoption/manager.go:119-127 | the record goes, if there is one |
| `Adoption.Manager.Lock` | pkg/adoption/manager.go:79-83 | only the owner of the one record changes, and the indexes follow |
| `Adoption.Manager.UnlockFunc` | pkg/adoption/manager.go:85-107 | the release function belongs to this record and this owner |
| `Adoption.Manager.FindReserved` | pkg/adoption/manager.go:200-221 | the index-th reservation of the group, if it has so many |
| `Adoption.Manager.FindStandby` | pkg/adoption/manager.go:223-241 | the least adoptable instance, if there is one |
| `Adoption.Manager.Adopt` | pkg/adoption/manager.go:192-248 | returns an instance of the group's namespace and cluster, and returns and locks exactly what the registry specification says, with a release function exactly for a fresh lock |
| `Adoption.Manager.LockFresh` | pkg/adoption/manager.go:233-244 | the found instance is locked for the group and its release function returned |
| `Adoption.Manager.Unlock` | pkg/adoption/manager.go:85-107 | releases the lock of its record, if that is still the registered one, however often it is called; it is the lock it was issued for unless the function was spent by an earlier release of the record; after deletion and registration anew it changes nothing |
| `Strings.SplitUndoesJoin` | pkg/reloadable/common.go:101-119 | splitting joined comma-free parts gives the parts back |
| `Overlay.KeysIdentify` | pkg/overlay/zz_generated.overlay.go:224-245 | joined keys are equal exactly if all key fields are |
| `Overlay.MergeIsTyped` | pkg/overlay/zz_generated.overlay.go:32-245 | merged values conform to the schema, with unique keys at every depth |
| `Overlay.MergedKeys` | pkg/overlay/zz_generated.overlay.go:224-245 | a merged list has the destination's keys in place, then the new keys in source order, once each |
| `Overlay.MergedAt` | pkg/overlay/zz_generated.overlay.go:224-245 | under each key it holds the item of the side that has it, or the merge of both |
| `Overlay.MergeIsAssociative` | pkg/overlay/zz_generated.overlay.go:32-245 | overlays compose: merging is associative for every schema and depth |
| `Overlay.MergeIsIdempotent` | pkg/overlay/zz_generated.overlay.go:32-245 | a value overlaid on itself is unchanged |
| `Overlay.ReapplyingIsNoChange` | pkg/overlay/zz_generated.overlay.go:32-245 | applying the same overlay twice is applying it once |
| `Overlay.EmptyBase` | pkg/overlay/zz_generated.overlay.go:32-245 | overlaying on nothing gives the overlay |
| `Overlay.EmptyOverlayExactly` | pkg/overlay/zz_generated.overlay.go:32-245 | an overlay that sets nothing changes nothing exactly for schemas without a bare struct that is replaced as a whole |
| `OverlayLaws.OverlayIsCarried` | pkg/overlay/zz_generated.overlay.go:32-245 | the overlay wins: everything it sets is in the merge, at every depth, under the same pointer, map key, list key or field |
| `OverlayLaws.RestIsKept` | pkg/overlay/zz_generated.overlay.go:32-245 | what it leaves unset is as before, items keep their places, and nothing appears that neither side has |
| `Overlay.ConfigMapNameIsErased` | pkg/overlay/zz_generated.overlay.go:759-780 | overlaying only a mode erases the config map's name |
| `OverlayCode.OverlayMapList` | pkg/overlay/zz_generated.overlay.go:224-245 | for any two lists: the position map and one pass put each source item on the last destination item with its key, or at the end |
| `OverlayCode.OverlayMap` | pkg/overlay/zz_generated.overlay.go:641-654 | granular maps in any order: missing keys copied, shared keys overlaid, the rest kept |
| `OverlayCode.OverlayFields` | pkg/overlay/zz_generated.overlay.go:32-223 | each field of a struct is overlaid on its own |
| `OverlayCode.OverlayValue` | pkg/overlay/zz_generated.overlay.go:32-245 | the functions for scalars, pointers, whole values, maps, lists and structs, for any values of the Go types; a set scalar, a non-empty collection replaced as a whole and a whole value are the overlay's |
| `OverlayCode.LaidIsMerged` | pkg/overlay/zz_generated.overlay.go:32-245 | what the code computes is the merge wherever keys are unique and hold no comma |
| `OverlayCode.RepeatedKeysAreNotIdempotent` | pkg/overlay/zz_generated.overlay.go:224-245 | a list with a repeated key that its own overlay changes |
| `OverlayCode.LaidNothing` | pkg/overlay/zz_generated.overlay.go:32-245 | an overlay that sets nothing changes nothing in any value without a bare struct that is replaced as a whole |
| `PodOverlay.PodSpecIsPodSpec` | pkg/overlay/zz_generated.overlay.go:32-223 | the pod spec's fields in order, whatever types are nested in them: the ninth is the node selector, and no struct that is replaced as a whole sits bare |
| `PodOverlay.OverlayEntries` | pkg/overlay/overlay.go:79-93 | metadata maps are created on demand and the overlay's entries win |
| `PodOverlay.OverlayPod` | pkg/overlay/overlay.go:35-60 | overlay metadata wins, the pod's node selector entries win, all other fields are overlaid, for any pod and overlay |
| `PodOverlay.SelectorIsKept` | pkg/overlay/overlay.go:40-53 | no node selector entry the pod already had is lost or changed |
| `PodOverlay.OverlaidTwice` | pkg/overlay/overlay.go:35-60 | overlaying a pod with unique comma-free keys again leaves it alone |
| `PodOverlay.MetadataOnly` | pkg/overlay/overlay.go:35-60 | an overlay without a spec leaves the pod's spec alone |
| `OverlayLaws.PodOverlayWins` | pkg/overlay/overlay.go:35-60 | both for every field of an overlaid pod but the node selector, which gets the overlay's entries under keys that it lacks |
| `OverlayLaws.ScalarIsOverlaid` | pkg/overlay/zz_generated.overlay.go:32-223 | for any pod and overlay, a scalar field that the overlay sets is the overlay's, and any other is the pod's |
| `OverlayLaws.MetadataIsOverlaid` | pkg/overlay/overlay.go:55-93 | each label and annotation is the overlay's if it has it, and else the pod's |
| `PollerReplay.ByNameHolds` | pkg/timanager/poller.go:211-218 | every listed name is held, with the last item of that name |
| `PollerReplay.ReplayReport` | pkg/timanager/poller.go:231-266 | replaying one poll's events on a store that matches the old state gives one that matches the new state |
| `PollerReplay.ReplayPart` | pkg/timanager/poller.go:240-274 | a store that misses some of a poll's events holds under every name what it held before or what the poller holds now |
| `PollerReplay.OrderIsIrrelevant` | pkg/timanager/poller.go:240-266 | the events in any order give the same store |
| `PollerReplay.SilentExactly` | pkg/timanager/poller.go:240-266 | a poll sends nothing exactly if the states match up to resource versions |
| `PollerReplay.ChangesAreSent` | pkg/timanager/poller.go:240-266 | in fields: a new name is sent as added, a missing one as deleted, one whose content or validity differs as modified, and nothing is sent under any other name |
| `PollerReplay.ReplayRun` | pkg/timanager/poller.go:195-266 | over every sequence of successful and failed polls the replayed store matches the poller's state |
| `PollerReplay.WatcherHolds` | pkg/timanager/poller.go:195-266 | after any polls a watcher that replays the events holds exactly the names last listed with their last items' content, and after a failed poll what it held before, all invalid |
| `PollerReplay.Poller.NewState` | pkg/timanager/poller.go:211-218 | the last item of each name |
| `PollerReplay.Poller.Sync` | pkg/timanager/poller.go:103-121 | before the start the state becomes the listing without events; after it, or on error, nothing changes |
| `PollerReplay.Poller.SendEvent` | pkg/timanager/poller.go:268-274 | the event is sent, or dropped if the poller is cancelled by then |
| `PollerReplay.Poller.UpdateState` | pkg/timanager/poller.go:231-238 | the new state, with its report if events are sent |
| `PollerReplay.Poller.GenerateEvents` | pkg/timanager/poller.go:240-266 | exactly the events due, one at most for each name and none for equal items; part of them if the poller is cancelled meanwhile |
| `PollerReplay.Poller.MarkStateInvalid` | pkg/timanager/poller.go:220-229 | every item becomes invalid and exactly those that were not are reported, or part of them if the poller is cancelled meanwhile |
| `PollerReplay.Poller.Poll` | pkg/timanager/poller.go:195-209 | the next state with its report, and the replayed store still matches; if the poller is cancelled by the end, part of that report, and a listing that fails after the cancellation changes nothing |
| `PollerShutdown.StepKeepsInvariant` | pkg/timanager/poller.go:123-185 | every step of every goroutine keeps the channel and delivery invariant |
| `PollerShutdown.ShutdownIsSafe` | pkg/timanager/informer.go:246-265 | in no interleaving is a closed channel sent on or closed again; Run returns after the forwarder, the watch channel closes after that; the watcher reads a prefix in order |
| `PollerShutdown.NothingLostBeforeCancel` | pkg/timanager/poller.go:136-165 | until the cancellation every accepted event was read, is buffered or is in the forwarder's hand |
| `PollerShutdown.NothingDroppedBeforeCancel` | pkg/timanager/poller.go:195-274 | until the cancellation the events accepted and those still to be sent are exactly those polled, in order |
| `PollerShutdown.NeverStuck` | pkg/timanager/poller.go:123-185 | once cancelled, some goroutine of the poller can always go on, even if the watcher reads nothing |
| `PollerShutdown.CancelledRunIsBounded` | pkg/timanager/poller.go:123-185 | without another poll the goroutines take boundedly many steps |
| `PollerShutdown.CanFinish` | pkg/timanager/poller.go:123-185 | from every cancelled state the poller can finish by itself within that bound |
| `FeatureLog.ParseFeature` | cmd/feature-gen/history.go:183-229 | a doc comment is accepted exactly if every marker parses, there is exactly one unreloadable marker, some log marker, each default suits its stage, and revisions and stages strictly rise between any two changes |
| `FeatureLog.ContinuesExactly` | cmd/feature-gen/history.go:211-221 | comparing each change with the one before it is enough for any two |
| `FeatureLog.ValidExactly` | cmd/feature-gen/history.go:183-229 | in fields: alpha features are off and beta and stable ones on by default, and of any two changes the later one has a higher revision and a later stage |
| `FeatureLog.DocExactly` | cmd/feature-gen/history.go:183-229 | line by line: every marker parses, there is a log marker and exactly one unreloadable marker, each default suits its stage, and of any two log markers the later has the later revision and stage |
| `FeatureLog.ValidIsConsistent` | cmd/feature-gen/history.go:283-292 | parsed features declare at most one change each at a revision, and later changes have later stages |
| `FeatureLog.StateStep` | cmd/feature-gen/history.go:305-313 | applying a revision's changes in any order gives each feature's last change up to it |
| `FeatureLog.GroupByRevision` | cmd/feature-gen/history.go:296-301 | exactly the declared changes by revision |
| `FeatureLog.BuildLog` | cmd/feature-gen/history.go:295-329 | succeeds exactly if the revisions used are 0 to n-1; entry r lists, sorted and once each, every feature introduced by r with its last change at or before r, chained by hash |
| `FeatureLog.LogIsUnique` | cmd/feature-gen/history.go:295-329 | the log depends on the declared changes only, not on the order of declarations |
| `FeatureLog.StagesOnlyAdvance` | cmd/feature-gen/history.go:283-329 | a feature once listed stays listed and its stage never moves back |
| `FeatureLog.HashFixesPrefix` | cmd/feature-gen/history.go:318-327 | with an injective hash, equal hashes in any two logs mean the same position and equal logs up to it |
| `FeatureLog.HashesDiffer` | cmd/feature-gen/history.go:318-327 | all hashes of a log differ |
| `FeatureLog.CheckAppendOnly` | cmd/feature-log-lint/main.go:66-79 | accepts exactly if the base is a prefix and at most one revision follows |
| `FeatureLog.UnchangedEntries` | cmd/feature-gen/history.go:295-329 | changes at later revisions leave all earlier entries and hashes as they were |
| `FeatureLog.LintExactly` | cmd/feature-log-lint/main.go:66-79 | of two generated logs the lint accepts exactly if the histories declare the same changes below the base's end and at most one revision more |
| `FeatureGates.NewFromLogs` | pkg/features/gates.go:39-45 | a feature's default is that of its last definition, and off if it has none |
| `FeatureGates.NewFromFeatures` | pkg/features/gates.go:71-77 | exactly the listed features are on |
| `FeatureGates.NewFromClusterWithDefaults` | pkg/features/gates.go:79-114 | the last entry for a feature decides, an omitted value means on, and a feature without entry has its default |
| `FeatureGates.LastEntryDecides` | pkg/features/gates.go:79-114 | a feature that the cluster mentions is on unless its last entry says false |
| `FeatureGates.LastDefinitionDecides` | pkg/features/gates.go:39-114 | any other is what its last definition says |
| `FeatureGates.UnknownIsOff` | pkg/features/gates.go:31-114 | one that nobody mentions is off |
| `FeatureGates.ClusterFeatures` | pkg/features/features.go:21-38 | exactly the features that are on, once each, explicit entries in spec order before the rest in log order, repeated names included |
| `FeatureGates.RoundTripExactly` | pkg/reloadable/common.go:101-119 | a list survives the annotation exactly if no name holds a comma and it is not a single empty name |
| `FeatureGates.Propagate` | pkg/features/features.go:21-38 | a group's gates, read back from the annotation, answer as the cluster's gates do for every feature |
| `Volumes.ActualVolume.ShouldModify` | pkg/volumes/raw_modifier.go:94-97 | the phase decides, and only preparing and modifying claims are modified |
| `Volumes.ActualVolume.ModifyPvcAnnoSpec` | pkg/volumes/raw_modifier.go:280-295 | the desired class and size are recorded, under a new revision if they differ |
| `Volumes.ActualVolume.SyncPvcSize` | pkg/volumes/raw_modifier.go:258-278 | synced exactly if request and capacity are the desired size, and a differing request is set |
| `Volumes.ActualVolume.ModifyPvcAnnoStatus` | pkg/volumes/raw_modifier.go:142-162 | the recorded spec becomes the status |
| `Volumes.ActualVolume.Modify` | pkg/volumes/raw_modifier.go:99-139 | done exactly with the change recorded and carried out; otherwise the claim is as before or after one of the updates; and the cloud was asked for what is desired, or not at all; if no update fails, the wish is recorded where that is due, then the cloud is asked, then the size, and once the claim has that the change is recorded as done |
| `Volumes.PreparingBumpsRevision` | pkg/volumes/utils.go:80-138 | a change that is prepared always gets a new revision |
| `Volumes.RefusedExactly` | pkg/volumes/raw_modifier.go:184-220 | in fields: a wish is refused exactly if there is none, it is smaller than the capacity, larger without expansion, of another class without a known volume, or the modifier is missing or refuses it |
| `Volumes.PhaseExactly` | pkg/volumes/raw_modifier.go:164-182 | any other claim is being modified exactly while its revisions differ, and else modified, waiting or to be prepared as the recorded class and size and the time since the last change say |
| `Volumes.ShrinkIsRefused` | pkg/volumes/raw_modifier.go:99-220 | an attempt at less than the capacity changes nothing and asks the cloud for nothing |
| `Volumes.PreparedRecords` | pkg/volumes/utils.go:72-138 | preparing records the wish and the time, raises the revision exactly if the wish differs from what was recorded, and changes nothing else; doing it again changes nothing |
| `Volumes.CompletedRecords` | pkg/volumes/raw_modifier.go:142-162 | completing makes the recorded wish the record of what is done and changes nothing else |
| `Volumes.ChangesAreSpaced` | pkg/volumes/raw_modifier.go:222-244 | in every run, two changes of a claim are at least as far apart as the later one's modifier asks for |
| `Volumes.StepKeepsInvariant` | pkg/volumes/raw_modifier.go:99-182 | every attempt, however it ends, and every outside change of request or capacity keeps the protocol's invariant |
| `Volumes.RevisionsTellTheTruth` | pkg/volumes/utils.go:151-194 | in every run from a claim without annotations, equal revisions mean equal effective class and size in spec and status |
| `Volumes.ChangeStaysOpen` | pkg/volumes/raw_modifier.go:99-182 | a recorded change stays recorded through any run that does not complete it |
| `Volumes.InterruptedResumes` | pkg/volumes/raw_modifier.go:164-182 | an interrupted change is resumed, whatever is desired by then, exactly while it validates |
| `Volumes.CompletedLooksModifiedExactly` | pkg/volumes/raw_modifier.go:142-182 | a completed change looks modified exactly for the class and size that were recorded |
| `Volumes.RecordsWhatWasAskedExactly` | pkg/volumes/raw_modifier.go:99-182 | over every run, a claim without an open change records what the cloud was last asked for exactly if the attempt that completed the last change had prepared it too or was made with the class and size it was prepared for |
| `Volumes.StatusMayLag` | pkg/volumes/raw_modifier.go:99-162 | a run in which the wish changes and changes back: the claim looks modified for class "a" and the cloud was last asked for class "b" |
| `Volumes.PassMakesProgress` | pkg/volumes/raw_modifier.go:99-182 | a pass in which nothing fails brings the claim strictly closer to the modified phase |
| `Volumes.PassIsAnAttempt` | pkg/volumes/raw_modifier.go:99-139 | such a pass is an attempt of the protocol followed by a change of capacity |
| `Volumes.PassesEndModified` | pkg/volumes/raw_modifier.go:99-182 | with a steady wish, spaced passes without failure are a run of at most three attempts that ends in the modified phase |
| `BackupRetry.ShiftExactly` | api/br/v1alpha1/backup.go:582-589 | the 64-bit shift multiplies by the power of two exactly if the product fits |
| `BackupRetry.CallKeepsSound` | api/br/v1alpha1/backup.go:470-536 | every Retry and PostRetry, accepted or not, keeps the log sound |
| `BackupRetry.AcceptedExactly` | api/br/v1alpha1/backup.go:470-589 | a retry is recorded exactly if the durations parse and it is the first, or none is pending, fewer than MaxRetryTimes are recorded and the timeout has not passed since the first |
| `BackupRetry.CallsInFields` | api/br/v1alpha1/backup.go:470-536 | a recorded retry has the next number, the given reasons and times and its delay, and is untriggered; a trigger sets the last one's time if it has none; nothing else changes |
| `BackupRetry.LogIsSound` | api/br/v1alpha1/backup.go:456-589 | after any calls record i has number i+1, only the last may be untriggered, there are at most max(1, MaxRetryTimes), all detected within the timeout's whole seconds of the first |
| `BackupRetry.DelaysDouble` | api/br/v1alpha1/backup.go:582-589 | if the largest possible delay fits in 64 bits, the n-th delay is MinRetryDuration * 2^(n-1) |
| `BackupRetry.DelayIsExactExactly` | api/br/v1alpha1/backup.go:582-589 | a record's delay is that product exactly if the product fits |
| `BackupRetry.LogOnlyGrows` | api/br/v1alpha1/backup.go:470-536 | records are never dropped, reordered or changed, except that a pending one is triggered once |
| `BackupRetry.Backup.GetBackupCondition` | api/br/v1alpha1/backup.go:129-139 | the condition of a kind, if there is one |
| `BackupRetry.Backup.UpdateBackupCondition` | api/br/v1alpha1/backup.go:172-213 | one condition of each kind, the given one set, all others kept, the phase moved except by a restart; unchanged is reported only if nothing changed |
| `BackupRetry.Backup.Retry` | api/br/v1alpha1/backup.go:470-514 | a record and its delay exactly if nothing is pending, no limit is exceeded and durations parse; over a limit the backup fails and nothing is recorded; errors change nothing |
| `BackupRetry.Backup.PostRetry` | api/br/v1alpha1/backup.go:517-536 | the pending retry is triggered, an earlier trigger time is kept, and an empty log is an error |

## Left out

- Builders.Build: requires distinct instance names, non-negative settings and a supply of fresh names; the name allocator is not part of this model.
- Adoption.Manager.Adopt: hashes are an injective function with non-empty results where theorems need it; the 32-bit hash itself is not modelled.
- PollerReplay.Poller.Poll: events carry the item as it was when sent; the source sends a pointer that a later failed poll may mark invalid.
- PollerShutdown.ShutdownIsSafe: one run of the poller; overlapping runs are not modelled.
- OverlayCode.OverlayValue: values in place of pointers, so sharing between overlay and pod is not captured.
- FeatureLog.ParseFeature: the text of a marker is given parsed or as failing to parse.
- FeatureLog.BuildLog: takes parsed features; SHA-256 and JSON are one hash function, injective where a theorem needs it, and reading Go declarations is not modelled.
- Volumes.ActualVolume.Modify: the cloud modifiers, storage class lookups and the application of the expected claim are answers and outside changes, not modelled code.
- BackupRetry.Backup.Retry: durations are given parsed or as failing to parse, and condition texts as values.
- Topology.Scheduler.NextDel: scores are unbounded integers, and a topology is given by its encoding.
- Builders.UpdaterTask: the upgrade preconditions and the check whether anything has to change come before it and are not modelled; the update policies are arbitrary.
- The Kubernetes client, server-side apply, transport and logging: calls succeed or fail.
- What actor hooks change in an instance beyond keeping its name, topology and resource version, and how the topology of a new instance is chosen (`NextAdd`); the cache and parsing of pod deletion costs.
- Reloading of components other than TiDB, which use fewer rules of the same kind, and the comparison with a running pod.
- Generated accessors, schemes, mocks, metrics, HTTP clients and command entry points.
- The other controllers' task lists, the web hooks and the backup jobs themselves.
