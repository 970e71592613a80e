/** Setting up an executor: the instances are split by what they are, counted, and handed to a
    fresh actor. */
module Builders {
  import opened Instances
  import opened Selection
  import opened Fleets
  import opened Lineages
  import opened Actors
  import opened Rollout
  import opened Tracking
  import opened Executors
  import opened Topology

  datatype Role = Ignored | Deleted | GoingOffline | Updated | Outdated

  /** Deleting instances are ignored; deferred deletion and a finished offline outrank being
      offline, which outranks the revision. */
  function RoleOf(i: Instance, revision: string): Role
  {
    if i.deleting then Ignored
    else if ANNO_DEFER_DELETE in i.annotations || i.IsStoreOfflined() then Deleted
    else if i.offline then GoingOffline
    else if i.updateRevision == revision then Updated
    else Outdated
  }

  function WithRole(all: seq<Instance>, revision: string, role: Role): seq<Instance>
  {
    if all == [] then []
    else
      var init := WithRole(all[..|all| - 1], revision, role);
      if RoleOf(all[|all| - 1], revision) == role then init + [all[|all| - 1]] else init
  }

  ghost predicate DistinctNames(s: seq<Instance>)
  {
    forall i, j | 0 <= i < j < |s| :: s[i].name != s[j].name
  }

  function StateOf(s: seq<Instance>): State
  {
    if s == [] then map[] else StateOf(s[..|s| - 1])[s[|s| - 1].name := s[|s| - 1]]
  }

  method Split(all: seq<Instance>, revision: string)
    returns (update: seq<Instance>, outdated: seq<Instance>, beingOffline: seq<Instance>, deleted: seq<Instance>)
    ensures update == WithRole(all, revision, Updated) && outdated == WithRole(all, revision, Outdated)
    ensures beingOffline == WithRole(all, revision, GoingOffline) && deleted == WithRole(all, revision, Deleted)
  {
    update, outdated, beingOffline, deleted := [], [], [], [];
    for k := 0 to |all|
      invariant update == WithRole(all[..k], revision, Updated)
      invariant outdated == WithRole(all[..k], revision, Outdated)
      invariant beingOffline == WithRole(all[..k], revision, GoingOffline)
      invariant deleted == WithRole(all[..k], revision, Deleted)
    {
      assert all[..k + 1][..k] == all[..k];
      var i := all[k];
      if i.deleting {
        continue;
      }
      if ANNO_DEFER_DELETE in i.annotations || i.IsStoreOfflined() {
        deleted := deleted + [i];
        continue;
      }
      if i.offline {
        beingOffline := beingOffline + [i];
        continue;
      }
      if i.updateRevision == revision {
        update := update + [i];
      } else {
        outdated := outdated + [i];
      }
    }
    assert all[..|all|] == all;
  }

  method NewState(s: seq<Instance>) returns (m: State)
    ensures m == StateOf(s)
  {
    m := map[];
    for k := 0 to |s|
      invariant m == StateOf(s[..k])
    {
      assert s[..k + 1][..k] == s[..k];
      m := m[s[k].name := s[k]];
    }
    assert s[..|s|] == s;
  }

  lemma {:induction false} StateOfHolds(s: seq<Instance>, n: string)
    ensures n in StateOf(s) ==> StateOf(s)[n] in s && StateOf(s)[n].name == n
    ensures n !in StateOf(s) ==> forall x | x in s :: x.name != n
  {
    if s != [] {
      StateOfHolds(s[..|s| - 1], n);
      assert s == s[..|s| - 1] + [s[|s| - 1]];
    }
  }

  method CountUnavailableUpdate(all: seq<Instance>, minReadySeconds: int, now: int) returns (unavailable: nat)
    requires DistinctNames(all)
    ensures unavailable == |Idle(StateOf(all), minReadySeconds, now)| && |StateOf(all)| == |all|
  {
    hide Idle, Instance.Serves;
    unavailable := 0;
    IdleOfNone(minReadySeconds, now);
    for k := 0 to |all|
      invariant unavailable == |Idle(StateOf(all[..k]), minReadySeconds, now)| && |StateOf(all[..k])| == k
    {
      assert all[..k + 1][..k] == all[..k];
      StateOfHolds(all[..k], all[k].name);
      CountWith(StateOf(all[..k]), all[k], minReadySeconds, now);
      var available := all[k].IsAvailable(minReadySeconds, now).0;
      ServesMeans(all[k], minReadySeconds, now);
      if !available || !all[k].IsUpToDate() {
        unavailable := unavailable + 1;
      }
    }
    assert all[..|all|] == all;
  }

  method CountUnavailableOutdated(all: seq<Instance>) returns (unavailable: nat)
    requires DistinctNames(all)
    ensures unavailable == |Stopped(StateOf(all))| && |StateOf(all)| == |all|
  {
    hide Stopped, Instance.IsNotRunning;
    unavailable := 0;
    IdleOfNone(0, 0);
    for k := 0 to |all|
      invariant unavailable == |Stopped(StateOf(all[..k]))| && |StateOf(all[..k])| == k
    {
      assert all[..k + 1][..k] == all[..k];
      StateOfHolds(all[..k], all[k].name);
      CountWith(StateOf(all[..k]), all[k], 0, 0);
      if all[k].IsNotRunning() {
        unavailable := unavailable + 1;
      }
    }
    assert all[..|all|] == all;
  }

  lemma IdleOfNone(minReadySeconds: int, now: int)
    ensures Idle(map[], minReadySeconds, now) == {} && Stopped(map[]) == {}
  {
  }

  lemma ServesMeans(i: Instance, minReadySeconds: int, now: int)
    ensures i.Serves(minReadySeconds, now) <==> i.IsAvailable(minReadySeconds, now).0 && i.IsUpToDate()
  {
  }

  // ---------------------------------------------------------------- the initial fleet

  lemma {:induction false} WithRoleHolds(all: seq<Instance>, revision: string, role: Role, x: Instance)
    ensures x in WithRole(all, revision, role) <==> x in all && RoleOf(x, revision) == role
  {
    if all != [] {
      WithRoleHolds(all[..|all| - 1], revision, role, x);
      assert all == all[..|all| - 1] + [all[|all| - 1]];
    }
  }

  lemma {:induction false} WithRoleKeepsDistinct(all: seq<Instance>, revision: string, role: Role)
    requires DistinctNames(all)
    ensures DistinctNames(WithRole(all, revision, role))
  {
    hide RoleOf;
    if all != [] {
      var init := WithRole(all[..|all| - 1], revision, role);
      WithRoleKeepsDistinct(all[..|all| - 1], revision, role);
      forall x | x in init ensures x.name != all[|all| - 1].name {
        WithRoleHolds(all[..|all| - 1], revision, role, x);
      }
    }
  }

  function InitialFleet(all: seq<Instance>, revision: string): Fleet
  {
    Fleet(StateOf(WithRole(all, revision, Updated)), StateOf(WithRole(all, revision, Outdated)),
          StateOf(WithRole(all, revision, Deleted)), StateOf(WithRole(all, revision, GoingOffline)), {}, {})
  }

  /** An instance is where its role puts it, and nowhere else. */
  lemma RoleDecides(all: seq<Instance>, revision: string, role: Role, n: string)
    requires n in StateOf(WithRole(all, revision, role))
    ensures var x := StateOf(WithRole(all, revision, role))[n];
            x in all && x.name == n && RoleOf(x, revision) == role
  {
    hide RoleOf;
    StateOfHolds(WithRole(all, revision, role), n);
    WithRoleHolds(all, revision, role, StateOf(WithRole(all, revision, role))[n]);
  }

  lemma RolesAreExclusive(all: seq<Instance>, revision: string, r1: Role, r2: Role, n: string)
    requires DistinctNames(all) && r1 != r2
    requires n in StateOf(WithRole(all, revision, r1))
    ensures n !in StateOf(WithRole(all, revision, r2))
  {
    hide RoleOf, StateOf, WithRole;
    RoleDecides(all, revision, r1, n);
    if n in StateOf(WithRole(all, revision, r2)) {
      RoleDecides(all, revision, r2, n);
      assert false;
    }
  }

  /** Which set an instance starts in. Instances that are being deleted are in none; those marked for deletion
      or drained await it, whether offline or not; of the rest the offline ones may be taken back, and the
      others are updated exactly if they are of the revision. */
  lemma InitialFleetHolds(all: seq<Instance>, revision: string, x: Instance)
    requires DistinctNames(all) && x in all
    ensures var f := InitialFleet(all, revision);
            var dropped := "core.pingcap.com/defer-delete" in x.annotations
                           || (x.storeOfflined.Some? && x.storeOfflined.value.status == True);
            && (x.name in f.update <==> !x.deleting && !dropped && !x.offline && x.updateRevision == revision)
            && (x.name in f.outdated <==> !x.deleting && !dropped && !x.offline && x.updateRevision != revision)
            && (x.name in f.beingOffline <==> !x.deleting && !dropped && x.offline)
            && (x.name in f.deleted <==> !x.deleting && dropped)
            && (x.name in f.update ==> f.update[x.name] == x) && (x.name in f.outdated ==> f.outdated[x.name] == x)
            && (x.name in f.beingOffline ==> f.beingOffline[x.name] == x)
            && (x.name in f.deleted ==> f.deleted[x.name] == x)
  {
    hide StateOf, WithRole;
    HoldsByRole(all, revision, Updated, x);
    HoldsByRole(all, revision, Outdated, x);
    HoldsByRole(all, revision, GoingOffline, x);
    HoldsByRole(all, revision, Deleted, x);
  }

  lemma HoldsByRole(all: seq<Instance>, revision: string, role: Role, x: Instance)
    requires DistinctNames(all) && x in all
    ensures var m := StateOf(WithRole(all, revision, role));
            && (x.name in m <==> RoleOf(x, revision) == role) && (x.name in m ==> m[x.name] == x)
  {
    hide RoleOf, StateOf, WithRole;
    var m := StateOf(WithRole(all, revision, role));
    StateOfHolds(WithRole(all, revision, role), x.name);
    WithRoleHolds(all, revision, role, x);
    if x.name in m { RoleDecides(all, revision, role, x.name); }
  }

  lemma InitialFleetIsSound(all: seq<Instance>, revision: string)
    requires DistinctNames(all)
    ensures InitialFleet(all, revision).Sound()
  {
    hide RoleOf, StateOf, WithRole;
    var f := InitialFleet(all, revision);
    forall role: Role, n: string | n in StateOf(WithRole(all, revision, role))
      ensures StateOf(WithRole(all, revision, role))[n].name == n
    {
      StateOfHolds(WithRole(all, revision, role), n);
    }
    forall n | n in f.update ensures n !in f.outdated && n !in f.deleted && n !in f.beingOffline {
      RolesAreExclusive(all, revision, Updated, Outdated, n);
      RolesAreExclusive(all, revision, Updated, Deleted, n);
      RolesAreExclusive(all, revision, Updated, GoingOffline, n);
    }
    forall n | n in f.outdated ensures n !in f.deleted && n !in f.beingOffline {
      RolesAreExclusive(all, revision, Outdated, Deleted, n);
      RolesAreExclusive(all, revision, Outdated, GoingOffline, n);
    }
    forall n | n in f.deleted ensures n !in f.beingOffline {
      RolesAreExclusive(all, revision, Deleted, GoingOffline, n);
    }
  }

  /** No instance has excess capacity, and an updated one that is stopped is never ready. */
  ghost predicate Ordinary(f: Fleet)
  {
    && (forall n | n in f.update :: !f.update[n].Observed(f.update[n].capacityExceedsRequest, True))
    && (forall n | n in f.outdated :: !f.outdated[n].Observed(f.outdated[n].capacityExceedsRequest, True))
    && (forall n | n in f.update && f.update[n].IsNotRunning() :: Down(f.update[n]))
  }

  /** An ordinary fleet in which no updated instance is ready but not yet available, with policies that,
      whatever the hooks, let every instance through that they were not told is gone. */
  ghost predicate Orderly(f: Fleet, custom: Policies, minReadySeconds: int, now: int)
  {
    && (forall h :: LeavesAll(custom(h), f.update - Gone(h)) && LeavesAll(custom(h), f.outdated - Gone(h)))
    && Ordinary(f) && Plain(f.update, minReadySeconds, now)
  }

  /** Such a fleet is scaled in unavailable instances first. */
  lemma OrderlyIsGentle(f: Fleet, c: Counters, cost: Instance -> int, custom: Policies, ps: Policies,
                            min: int, now: int)
    requires f.Sound() && Orderly(f, custom, min, now) && c.unavailableUpdate == |Idle(f.update, min, now)|
    requires forall h :: ps(h) == ScaleInPolicies(cost, custom(h))
    ensures Gentle(c, f, ps, [], min, now)
  {
    hide ScaleInPolicies, LeavesAll, TakesDown, TakesStopped, Plain, Idle, Instance.Observed;
    forall h ensures TakesDown(ps(h), f.update - Gone(h)) && TakesStopped(ps(h), f.outdated - Gone(h)) {
      BuiltInScaleIn(cost, custom(h), f.update - Gone(h));
      BuiltInScaleIn(cost, custom(h), f.outdated - Gone(h));
    }
  }

  /** Once the controller has nothing to wait for, no updated instance is ready but not available, exactly
      if the conditions of those that are ready are dated. */
  lemma WaitedIsPlain(m: State, minReadySeconds: int, before: int, now: int)
    requires before <= now
    requires forall n | n in m ::
               m[n].IsAvailable(minReadySeconds, before).0 || m[n].IsAvailable(minReadySeconds, before).1 <= 0
    ensures Plain(m, minReadySeconds, now) <==> forall n | n in m && !Down(m[n]) :: Dated(m[n], minReadySeconds)
  {
    hide Instance.IsAvailable, Dated;
    forall n | n in m
      ensures (m[n].Serves(minReadySeconds, now) <==> !Down(m[n])) <==> (!Down(m[n]) ==> Dated(m[n], minReadySeconds))
    {
      ServesIsReady(m[n], minReadySeconds, now);
      if m[n].IsReady() { NothingToWaitFor(m[n], minReadySeconds, before, now); }
    }
  }

  lemma ServesIsReady(i: Instance, minReadySeconds: int, now: int)
    ensures i.IsAvailable(minReadySeconds, now).0 ==> i.IsReady()
  {
  }

  /** An ordinary fleet whose group declares no topology and whose controller has nothing to wait for is
      orderly under the topology policy. */
  lemma SpreadIsOrderly(all: seq<Instance>, revision: string, minReadySeconds: int, before: int, now: int)
    requires before <= now && Ordinary(InitialFleet(all, revision))
    requires forall i | i in all ::
               i.IsAvailable(minReadySeconds, before).0 || i.IsAvailable(minReadySeconds, before).1 <= 0
    requires forall i | i in all && !Down(i) :: Dated(i, minReadySeconds)
    ensures Orderly(InitialFleet(all, revision), SpreadPolicies([], PlaceAll([], all)), minReadySeconds, now)
  {
    hide RoleOf, StateOf, WithRole, Ordinary, Plain, Dated;
    hide Instance.IsAvailable, Down, LeavesAll, SpreadPolicies, PlaceAll;
    var f, p := InitialFleet(all, revision), PlaceAll([], all);
    PlaceAllInRange([], all);
    IsThere(all, revision, Updated);
    IsThere(all, revision, Outdated);
    forall h ensures LeavesAll(SpreadPolicies([], p)(h), f.update - Gone(h))
             ensures LeavesAll(SpreadPolicies([], p)(h), f.outdated - Gone(h)) {
      NoTopologies(p, h, f.update);
      NoTopologies(p, h, f.outdated);
    }
    WaitedIsPlain(f.update, minReadySeconds, before, now);
  }

  lemma IsThere(all: seq<Instance>, revision: string, role: Role)
    requires role == Updated || role == Outdated
    ensures var m := StateOf(WithRole(all, revision, role));
            && Named(m) && m.Keys <= PlaceAll([], all).Keys && forall n | n in m :: m[n] in all
  {
    hide StateOf, WithRole, PlaceAll;
    var m := StateOf(WithRole(all, revision, role));
    forall n | n in m ensures m[n].name == n && m[n] in all && n in PlaceAll([], all) {
      RoleDecides(all, revision, role, n);
      PlaceAllHolds([], all, m[n]);
    }
  }

  /** Policies made from the controller's own ones, for every sequence of hooks. */
  lemma BuiltPoliciesAreWellBehaved(cost: Instance -> int, custom: Policies)
    requires forall h, p | p in custom(h) :: p.WellBehaved()
    ensures forall h, p | p in UpdatePolicies(cost, custom(h)) :: p.WellBehaved()
    ensures forall h, p | p in ScaleInPolicies(cost, custom(h)) :: p.WellBehaved()
  {
    hide UpdatePolicies, ScaleInPolicies, Policy.WellBehaved;
    forall h ensures forall p | p in UpdatePolicies(cost, custom(h)) :: p.WellBehaved() {
      PoliciesAreWellBehaved(cost, custom(h));
    }
    forall h ensures forall p | p in ScaleInPolicies(cost, custom(h)) :: p.WellBehaved() {
      PoliciesAreWellBehaved(cost, custom(h));
    }
  }

  method BuildActor(all: seq<Instance>, revision: string,
                    update: seq<Instance>, outdated: seq<Instance>, beingOffline: seq<Instance>, deleted: seq<Instance>,
                    noInPlaceUpdate: bool, directDeleteOutdated: bool, cost: Instance -> int,
                    updatePolicies: Policies, scaleInPolicies: Policies,
                    cancelOfflineFilters: seq<Filter>, factory: nat -> Instance)
    returns (act: Actor)
    requires update == WithRole(all, revision, Updated) && outdated == WithRole(all, revision, Outdated)
    requires beingOffline == WithRole(all, revision, GoingOffline) && deleted == WithRole(all, revision, Deleted)
    requires NameSupply(factory, 0, InitialFleet(all, revision).Names())
    ensures fresh(act) && act.View() == InitialFleet(all, revision) && act.Supplied() && act.hooks == []
    ensures act.noInPlaceUpdate == noInPlaceUpdate && act.directDeleteOutdated == directDeleteOutdated
    ensures act.cost == cost && act.cancelOfflineFilters == cancelOfflineFilters && act.factory == factory
    ensures forall h :: act.updatePolicies(h) == UpdatePolicies(cost, updatePolicies(h))
    ensures forall h :: act.scaleInPolicies(h) == ScaleInPolicies(cost, scaleInPolicies(h))
  {
    hide RoleOf, StateOf, WithRole, NameSupply, Fleets.Fleet.Names, UpdatePolicies, ScaleInPolicies;
    var updateState := NewState(update);
    var outdatedState := NewState(outdated);
    var beingOfflineState := NewState(beingOffline);
    var deletedState := NewState(deleted);
    act := new Actor(updateState, outdatedState, beingOfflineState, deletedState,
                     noInPlaceUpdate, directDeleteOutdated, cost,
                     h => UpdatePolicies(cost, updatePolicies(h)), h => ScaleInPolicies(cost, scaleInPolicies(h)),
                     cancelOfflineFilters, factory);
  }

  /** The counters of a fleet: how many instances there are, and how many do not serve or run. */
  ghost function CountersOf(f: Fleet, desired: int, maxSurge: int, maxUnavailable: int, minReadySeconds: int,
                            now: int): Counters
  {
    Counters(|f.update|, |f.outdated|, desired, |Idle(f.update, minReadySeconds, now)|, |Stopped(f.outdated)|,
             maxSurge, maxUnavailable)
  }

  /** The executor for one reconcile. Its counters agree with the actor's sets exactly. */
  method Build(all: seq<Instance>, revision: string, desired: int, maxSurge: int, maxUnavailable: int,
               noInPlaceUpdate: bool, directDeleteOutdated: bool, minReadySeconds: int, now: int,
               cost: Instance -> int, updatePolicies: Policies, scaleInPolicies: Policies,
               cancelOfflineFilters: seq<Filter>, factory: nat -> Instance)
    returns (ex: Executor)
    requires DistinctNames(all) && 0 <= desired && 0 <= maxSurge && 0 <= maxUnavailable
    requires NameSupply(factory, 0, InitialFleet(all, revision).Names())
    requires forall h, p | p in updatePolicies(h) :: p.WellBehaved()
    requires forall h, p | p in scaleInPolicies(h) :: p.WellBehaved()
    ensures fresh(ex) && fresh(ex.act)
    ensures ex.act.View() == InitialFleet(all, revision)
    ensures ex.AtHead({}) && ex.act.PoliciesWellBehaved() && ex.act.removed == {} && ex.act.offlined == {}
    ensures ex.act.noInPlaceUpdate == noInPlaceUpdate && ex.act.directDeleteOutdated == directDeleteOutdated
    ensures ex.act.factory == factory
    ensures forall h :: ex.act.updatePolicies(h) == UpdatePolicies(cost, updatePolicies(h))
    ensures forall h :: ex.act.scaleInPolicies(h) == ScaleInPolicies(cost, scaleInPolicies(h))
    ensures ex.View() ==
              CountersOf(InitialFleet(all, revision), desired, maxSurge, maxUnavailable, minReadySeconds, now)
    ensures ex.minReadySeconds == minReadySeconds && ex.now == now
    ensures ex.View().Available() == ex.act.View().InService(minReadySeconds, now)
    ensures Orderly(InitialFleet(all, revision), scaleInPolicies, minReadySeconds, now) ==> ex.ScalesInGently()
  {
    hide RoleOf, StateOf, WithRole, NameSupply, Stopped, Idle, Fleets.Fleet.Sound, Fleets.Fleet.Names, DistinctNames;
    hide UpdatePolicies, ScaleInPolicies, Policy.WellBehaved, Actor.Supplied, Orderly, Gentle;
    InitialFleetIsSound(all, revision);
    WithRoleKeepsDistinct(all, revision, Updated);
    WithRoleKeepsDistinct(all, revision, Outdated);
    BuiltPoliciesAreWellBehaved(cost, updatePolicies);
    BuiltPoliciesAreWellBehaved(cost, scaleInPolicies);
    var update, outdated, beingOffline, deleted := Split(all, revision);
    var act := BuildActor(all, revision, update, outdated, beingOffline, deleted, noInPlaceUpdate,
                          directDeleteOutdated, cost, updatePolicies, scaleInPolicies, cancelOfflineFilters, factory);
    var unavailableUpdate := CountUnavailableUpdate(update, minReadySeconds, now);
    var unavailableOutdated := CountUnavailableOutdated(outdated);
    ex := new Executor(act, |update|, |outdated|, desired, unavailableUpdate, unavailableOutdated,
                       maxSurge, maxUnavailable, minReadySeconds, now);
    TrackingIsSane(ex.View(), act.View(), {}, minReadySeconds, now);
    if Orderly(act.View(), scaleInPolicies, minReadySeconds, now) {
      OrderlyIsGentle(act.View(), ex.View(), cost, scaleInPolicies, act.scaleInPolicies, minReadySeconds, now);
    }
  }

  // ---------------------------------------------------------------- reconciles of a fleet

  /** A reconcile: the fleet it found, its run with the numbers in service, the running instances that were
      recreated, and the fleet it left. */
  datatype Reconcile = Reconcile(start: Fleet, run: Run, service: seq<int>, recreated: set<string>, end: Fleet,
                                 minReadySeconds: int, now: int)

  ghost predicate IsReconcile(x: Reconcile, desired: int, maxSurge: int, maxUnavailable: int)
  {
    && IsRun(x.run) && Finished(x.run)
    && First(x.run) == CountersOf(x.start, desired, maxSurge, maxUnavailable, x.minReadySeconds, x.now)
    && Last(x.run).update == |x.end.update| && Last(x.run).outdated == |x.end.outdated|
  }

  /** However it goes, at most one instance fewer is in service than at first or than `minimum` asks for, not
      counting the running ones that were recreated. */
  ghost predicate KeepsNearFloor(x: Reconcile, minimum: int)
  {
    forall i | 0 <= i < |x.service| ::
      x.service[i] >= Min(x.start.InService(x.minReadySeconds, x.now), minimum) - 1 - |x.recreated|
  }

  lemma NearFloor(x: Reconcile, desired: int, maxSurge: int, maxUnavailable: int)
    requires var c := CountersOf(x.start, desired, maxSurge, maxUnavailable, x.minReadySeconds, x.now);
             KeepsService(x.run, x.service, c, x.start, x.recreated)
    ensures KeepsNearFloor(x, desired - maxUnavailable)
  {
    hide Idle, Stopped, CarefulRun, CarefulFloorIsSafe, FloorIsSafe, IsRun, Instance.IsNotRunning;
  }

  /** What was updated at first, or made by a factory of the revision, is of the revision. */
  lemma AllOfRevision(all: seq<Instance>, revision: string, m: State, factory: nat -> Instance)
    requires forall k :: factory(k).updateRevision == revision
    requires var f := InitialFleet(all, revision);
             forall n | n in m :: (n in f.update && m[n] == f.update[n]) || MadeBy(factory, m[n])
    ensures forall n | n in m :: m[n].updateRevision == revision
  {
    hide StateOf, WithRole;
    forall n | n in m ensures m[n].updateRevision == revision {
      if n in InitialFleet(all, revision).update { RoleDecides(all, revision, Updated, n); }
    }
  }

  /** Builds an executor for the instances there are and runs it. */
  method Update(all: seq<Instance>, revision: string, desired: int, maxSurge: int, maxUnavailable: int,
                noInPlaceUpdate: bool, directDeleteOutdated: bool, minReadySeconds: int, now: int,
                cost: Instance -> int, updatePolicies: Policies, scaleInPolicies: Policies,
                cancelOfflineFilters: seq<Filter>, factory: nat -> Instance)
    returns (wait: bool, err: Error, ghost x: Reconcile)
    requires DistinctNames(all) && 0 <= desired && 0 <= maxSurge && 0 <= maxUnavailable
    requires NameSupply(factory, 0, InitialFleet(all, revision).Names())
    requires forall h, p | p in updatePolicies(h) :: p.WellBehaved()
    requires forall h, p | p in scaleInPolicies(h) :: p.WellBehaved()
    ensures x.start == InitialFleet(all, revision) && x.minReadySeconds == minReadySeconds && x.now == now
    ensures err == NoError ==> IsReconcile(x, desired, maxSurge, maxUnavailable) && (wait <==> !CleansUp(x.run))
    ensures IsRun(x.run) && (Orderly(x.start, scaleInPolicies, minReadySeconds, now) ==> CarefulRun(x.run))
    ensures KeepsService(x.run, x.service, CountersOf(x.start, desired, maxSurge, maxUnavailable, minReadySeconds, now),
                         x.start, x.recreated)
    ensures x.recreated != {} ==>
              noInPlaceUpdate && !forall h :: PicksStopped(UpdatePolicies(cost, updatePolicies(h)))
    ensures KeepsNearFloor(x, desired - maxUnavailable)
    ensures DeletesDrained(x.start, x.end.removed, directDeleteOutdated)
    ensures err == NoError && (forall k :: factory(k).updateRevision == revision) ==>
              forall n | n in x.end.update :: x.end.update[n].updateRevision == revision
  {
    hide InitialFleet, NameSupply, DistinctNames, CountersOf, UpdatePolicies;
    hide HeadInvariant, Actor.Supplied, Actor.PoliciesWellBehaved;
    hide Policy.WellBehaved, KeepsService, Conserves, PicksStopped, Fleets.Fleet.InService, IsRun, Finished, CleansUp;
    hide ScaleInPolicies, Orderly, CarefulRun, Gentle, DeletesDrained, KeepsNearFloor, MadeBy;
    var ex := Build(all, revision, desired, maxSurge, maxUnavailable, noInPlaceUpdate, directDeleteOutdated,
                    minReadySeconds, now, cost, updatePolicies, scaleInPolicies, cancelOfflineFilters, factory);
    ghost var run, service, recreated;
    wait, err, run, service, recreated := ex.Do();
    x := Reconcile(InitialFleet(all, revision), run, service, recreated, ex.act.View(), minReadySeconds, now);
    NearFloor(x, desired, maxSurge, maxUnavailable);
    if err == NoError && forall k :: factory(k).updateRevision == revision {
      AllOfRevision(all, revision, x.end.update, factory);
    }
  }

  /** The updater task of a group controller whose own scale-in policy spreads topologies. It waits first
      until no instance is ready but not available. If no topology is declared, a run for an ordinary fleet
      scales in unavailable instances first, and the instances in service keep the floor accordingly. */
  method UpdaterTask(all: seq<Instance>, revision: string, desired: int, maxSurge: int, maxUnavailable: int,
                     noInPlaceUpdate: bool, directDeleteOutdated: bool, minReadySeconds: int, before: int, now: int,
                     cost: Instance -> int, updatePolicies: Policies, spots: seq<Spot>,
                     cancelOfflineFilters: seq<Filter>, factory: nat -> Instance)
    returns (retry: int, wait: bool, err: Error, ghost x: Reconcile)
    requires DistinctNames(all) && 0 <= desired && 0 <= maxSurge && 0 <= maxUnavailable && before <= now
    requires NameSupply(factory, 0, InitialFleet(all, revision).Names())
    requires forall h, p | p in updatePolicies(h) :: p.WellBehaved()
    ensures retry != 0 <==> exists i :: i in all && !i.IsAvailable(minReadySeconds, before).0
                                        && i.IsAvailable(minReadySeconds, before).1 > 0
    ensures retry == 0 ==>
              && x.start == InitialFleet(all, revision)
              && (err == NoError ==> IsReconcile(x, desired, maxSurge, maxUnavailable) && (wait <==> !CleansUp(x.run)))
              && KeepsService(x.run, x.service,
                              CountersOf(x.start, desired, maxSurge, maxUnavailable, minReadySeconds, now),
                              x.start, x.recreated)
    ensures retry == 0 && spots == [] && Ordinary(x.start) ==>
              var c := CountersOf(x.start, desired, maxSurge, maxUnavailable, minReadySeconds, now);
              (forall i | i in all && !Down(i) :: Dated(i, minReadySeconds)) && CarefulFloorIsSafe(c) ==>
                forall i | 0 <= i < |x.service| :: x.service[i] >= Floor(c) - |x.recreated|
    ensures retry == 0 && x.recreated != {} ==>
              noInPlaceUpdate && !forall h :: PicksStopped(UpdatePolicies(cost, updatePolicies(h)))
  {
    hide InitialFleet, NameSupply, DistinctNames, Policy.WellBehaved, Orderly;
    hide Ordinary, Dated, Down, Instance.IsAvailable;
    hide IsRun, CarefulRun, IsReconcile, CleansUp, CarefulFloorIsSafe, FloorIsSafe, Floor, SpreadPolicies, PlaceAll;
    hide CountersOf, PicksStopped, UpdatePolicies;
    retry := RetryIfReadyButNotAvailable(all, minReadySeconds, before);
    if retry != 0 {
      wait, err, x := true, NoError,
        Reconcile(InitialFleet(all, revision), Run([], []), [], {}, InitialFleet(all, revision), 0, 0);
      return;
    }
    var p := PlaceAll(spots, all);
    SpreadIsWellBehaved(spots, p);
    wait, err, x := Update(all, revision, desired, maxSurge, maxUnavailable, noInPlaceUpdate, directDeleteOutdated,
                           minReadySeconds, now, cost, updatePolicies, SpreadPolicies(spots, p),
                           cancelOfflineFilters, factory);
    if spots == [] && Ordinary(x.start) && forall i | i in all && !Down(i) :: Dated(i, minReadySeconds) {
      SpreadIsOrderly(all, revision, minReadySeconds, before, now);
    }
  }

  /** Between two reconciles the updated instances became available; outdated ones may have gone up,
      down, or away. */
  ghost predicate Settled(x: Reconcile, y: Reconcile)
  {
    && y.start.update.Keys == x.end.update.Keys && Idle(y.start.update, y.minReadySeconds, y.now) == {}
    && y.start.outdated.Keys <= x.end.outdated.Keys
  }

  ghost predicate IsFleetRollout(xs: seq<Reconcile>, desired: int, maxSurge: int, maxUnavailable: int)
  {
    && (forall i | 0 <= i < |xs| :: IsReconcile(xs[i], desired, maxSurge, maxUnavailable))
    && (|xs| > 0 ==> Idle(xs[0].start.update, xs[0].minReadySeconds, xs[0].now) == {})
    && (forall i | 0 <= i < |xs| - 1 :: Settled(xs[i], xs[i + 1]))
  }

  lemma SettledCounters(x: Reconcile, y: Reconcile, desired: int, maxSurge: int, maxUnavailable: int)
    requires 0 <= desired && 0 <= maxSurge && 0 <= maxUnavailable
    requires IsReconcile(x, desired, maxSurge, maxUnavailable) && IsReconcile(y, desired, maxSurge, maxUnavailable)
    requires Settled(x, y)
    ensures Settles(Last(x.run), First(y.run))
  {
    hide Idle, Stopped, IsRun, Finished;
    assert |y.start.update| == |y.start.update.Keys| && |x.end.update| == |x.end.update.Keys|;
    SubsetIsSmaller(y.start.outdated.Keys, x.end.outdated.Keys);
    StoppedAreFew(y.start.outdated);
    LastKeepsPolicy(x.run);
  }

  lemma StoppedAreFew(m: State)
    ensures |Stopped(m)| <= |m|
  {
    SubsetIsSmaller(Stopped(m), m.Keys);
  }

  lemma LastKeepsPolicy(r: Run)
    requires IsRun(r)
    ensures Last(r).SamePolicy(First(r))
  {
    HeadIsSane(r, |r.steps|);
  }

  /** A fleet converges within as many reconciles as it has outdated, missing and surplus instances:
      from then on nothing is outdated, the desired number is updated, and reconciles only clean up. */
  lemma FleetsConverge(xs: seq<Reconcile>, desired: int, maxSurge: int, maxUnavailable: int, i: nat)
    requires IsFleetRollout(xs, desired, maxSurge, maxUnavailable) && i < |xs|
    requires 0 <= desired && 0 <= maxSurge && 0 <= maxUnavailable && maxSurge + maxUnavailable >= 1
    requires var f := xs[0].start;
             |f.outdated| + Max(|f.update| - desired, desired - |f.update|) <= i
    ensures xs[i].start.outdated == map[] && |xs[i].start.update| == desired
    ensures xs[i].run.steps == [] && CleansUp(xs[i].run)
  {
    hide Finished, Idle, Stopped, Settles, CleansUp, Legal, After, Stops;
    var rs := seq(|xs|, k requires 0 <= k < |xs| => xs[k].run);
    forall k | 0 <= k < |rs| - 1 ensures Settles(Last(rs[k]), First(rs[k + 1])) {
      assert Settled(xs[k], xs[k + 1]);
      SettledCounters(xs[k], xs[k + 1], desired, maxSurge, maxUnavailable);
    }
    assert IsReconcile(xs[0], desired, maxSurge, maxUnavailable);
    assert First(rs[0]).unavailableUpdate == 0;
    RolloutConverges(rs, i);
    assert rs[i] == xs[i].run && IsReconcile(xs[i], desired, maxSurge, maxUnavailable);
  }
}
