/** The executor's counters and the actor's sets, step by step: every run of the loop is a run of
    `Rollout`, and what the counters call available is in service, up to the running instances that
    were recreated where a stopped one was wanted. */
module Tracking {
  import opened Wrappers
  import opened Instances
  import opened Selection
  import opened Fleets
  import opened Lineages
  import opened Actors
  import opened Rollout

  // ---------------------------------------------------------------- counters and sets

  /** The counters agree with the sets. Updated instances counted as unavailable include all that
      do not serve, but possibly more: one that is scaled in while ready but not yet available
      is not uncounted. Each instance in `recreated` may have left a stopped one uncounted. */
  ghost predicate Tracks(c: Counters, f: Fleet, recreated: set<string>, minReadySeconds: int, now: int)
  {
    && c.update == |f.update| && c.outdated == |f.outdated|
    && c.unavailableOutdated <= |Stopped(f.outdated)| <= c.unavailableOutdated + |recreated|
    && c.unavailableUpdate >= |Idle(f.update, minReadySeconds, now)|
    && 0 <= c.desired && 0 <= c.maxSurge && 0 <= c.maxUnavailable
  }

  lemma TrackingIsSane(c: Counters, f: Fleet, recreated: set<string>, minReadySeconds: int, now: int)
    requires Tracks(c, f, recreated, minReadySeconds, now)
    ensures c.Sane() && c.Available() - |recreated| <= f.InService(minReadySeconds, now)
    ensures recreated == {} ==> 0 <= c.unavailableOutdated
    ensures recreated == {} && c.unavailableUpdate == |Idle(f.update, minReadySeconds, now)| ==>
              c.Available() == f.InService(minReadySeconds, now)
  {
    SubsetIsSmaller(Stopped(f.outdated), f.outdated.Keys);
  }

  /** Outdated instances only go. */
  ghost predicate Shrinks(f: Fleet, f': Fleet)
  {
    forall n | n in f'.outdated :: n in f.outdated && f'.outdated[n] == f.outdated[n]
  }

  /** What was recreated in between was outdated and running. */
  ghost predicate Recreates(f: Fleet, before: set<string>, after: set<string>)
  {
    before <= after && forall n | n in after && n !in before :: n in f.outdated && !f.outdated[n].IsNotRunning()
  }

  /** What one successful pass of the loop does to counters and sets together. */
  ghost predicate Moves(c: Counters, f: Fleet, r: set<string>, s: Step, c': Counters, f': Fleet, r': set<string>,
                        minReadySeconds: int, now: int)
  {
    && Legal(c, s) && c' == After(c, s)
    && f'.Sound() && Tracks(c', f', r', minReadySeconds, now)
    && Conserves(f, f') && Shrinks(f, f') && Recreates(f, r, r') && r' !! f'.outdated.Keys
    && (r' == r || (s.call == Update(true) && |r'| == |r| + 1))
    && f'.removed <= f.removed + (if c.Over() then f.update.Keys else {}) + (r' - r)
    && (c'.Over() ==> f'.offlined <= f'.beingOffline.Keys && f'.update.Keys <= f.update.Keys && r' == {})
  }

  /** What holds at the loop head. While above the maximum, nothing that was marked offline has
      been taken back, and nothing was recreated. */
  ghost predicate HeadInvariant(c: Counters, f: Fleet, recreated: set<string>, minReadySeconds: int, now: int)
  {
    && f.Sound() && Tracks(c, f, recreated, minReadySeconds, now) && recreated !! f.outdated.Keys
    && (c.Over() ==> f.offlined <= f.beingOffline.Keys && recreated == {})
  }

  lemma MovesIsAfter(c: Counters, f: Fleet, r: set<string>, s: Step, c': Counters, f': Fleet, r': set<string>,
                     min: int, now: int)
    requires Moves(c, f, r, s, c', f', r', min, now)
    ensures Legal(c, s) && c' == After(c, s) && Tracks(c', f', r', min, now)
  {
  }

  /** A move that leaves the outdated instances, or all but one of them. */
  lemma FewerOutdated(f: Fleet, f': Fleet, r: set<string>, n: string)
    requires f'.outdated == f.outdated || f'.outdated == f.outdated - {n}
    requires r !! f.outdated.Keys
    ensures Shrinks(f, f') && Recreates(f, r, r) && r !! f'.outdated.Keys
    ensures f'.outdated == f.outdated - {n} && n in f.outdated ==>
              r + {n} !! f'.outdated.Keys && |r + {n}| == |r| + 1
    ensures n in f.outdated && !f.outdated[n].IsNotRunning() ==> Recreates(f, r, r + {n})
  {
    hide Instance.IsNotRunning;
  }

  lemma ScaleOutMoves(c: Counters, f: Fleet, r: set<string>, o: Instance, min: int, now: int)
    requires HeadInvariant(c, f, r, min, now) && !c.Converged() && Decide(c) == Act(ScaleOut)
    requires o.name in f.beingOffline || o.name !in f.Names() + f.removed
    ensures var f' := if o.name in f.beingOffline then Revived(f, o) else Added(f, o);
            var s := Step(ScaleOut, false);
            Moves(c, f, r, s, After(c, s), f', r, min, now)
  {
    hide Fleets.Fleet.Sound, Fleets.Fleet.Names, Conserves, Idle, Stopped, Shrinks, Recreates;
    TrackingIsSane(c, f, r, min, now);
    StepKeepsSide(c, Step(ScaleOut, false));
    FewerOutdated(f, if o.name in f.beingOffline then Revived(f, o) else Added(f, o), r, "");
    if o.name in f.beingOffline {
      RevivedIsSound(f, o);
      RevivedNames(f, o);
    } else {
      AddedIsSound(f, o);
      AddedNames(f, o);
    }
    CountWith(f.update, o, min, now);
  }

  lemma UpdateMoves(c: Counters, f: Fleet, r: set<string>, gone: Instance, o: Instance, unavailable: bool,
                    min: int, now: int)
    requires HeadInvariant(c, f, r, min, now) && !c.Converged() && Decide(c) == Act(Update(unavailable))
    requires gone.name in f.outdated && f.outdated[gone.name] == gone && o.name == gone.name
    requires unavailable ==> gone.IsNotRunning()
    ensures var s := Step(Update(unavailable), false);
            Moves(c, f, r, s, After(c, s), Replaced(f, gone, o), r, min, now)
  {
    hide Fleets.Fleet.Sound, Fleets.Fleet.Names, Conserves, Idle, Stopped, Instance.IsNotRunning, Shrinks, Recreates;
    TrackingIsSane(c, f, r, min, now);
    StepKeepsSide(c, Step(Update(unavailable), false));
    FewerOutdated(f, Replaced(f, gone, o), r, gone.name);
    ReplacedIsSound(f, gone, o);
    ReplacedNames(f, gone, o);
    CountWith(f.update, o, min, now);
    CountWithout(f.outdated, gone.name, min, now);
  }

  /** Recreating a running instance where a stopped one was wanted. */
  lemma RecreateMoves(c: Counters, f: Fleet, r: set<string>, gone: Instance, o: Instance, direct: bool,
                      min: int, now: int)
    requires HeadInvariant(c, f, r, min, now) && !c.Converged() && Decide(c) == Act(Update(true))
    requires gone.name in f.outdated && f.outdated[gone.name] == gone && !gone.IsNotRunning()
    requires o.name in ScaledInOutdated(f, gone, direct).beingOffline || o.name !in f.Names() + f.removed
    ensures var s := Step(Update(true), false);
            Moves(c, f, r, s, After(c, s), Recreated(f, gone, o, direct), r + {gone.name}, min, now)
  {
    hide Fleets.Fleet.Sound, Fleets.Fleet.Names, Conserves, Idle, Stopped, Instance.IsNotRunning, Recreated;
    hide ScaledInOutdated, Shrinks, Recreates;
    TrackingIsSane(c, f, r, min, now);
    StepKeepsSide(c, Step(Update(true), false));
    RecreatedIsSound(f, gone, o, direct);
    FewerOutdated(f, Recreated(f, gone, o, direct), r, gone.name);
    CountWith(f.update, o, min, now);
    CountWithout(f.outdated, gone.name, min, now);
  }

  lemma ScaleInUpdateMoves(c: Counters, f: Fleet, r: set<string>, gone: Instance, direct: bool, min: int, now: int)
    requires HeadInvariant(c, f, r, min, now) && !c.Converged() && Decide(c) == Act(ScaleInUpdate)
    requires gone.name in f.update && f.update[gone.name] == gone
    ensures var s := Step(ScaleInUpdate, !gone.IsReady() || !gone.IsUpToDate());
            Moves(c, f, r, s, After(c, s), ScaledInUpdate(f, gone, direct), r, min, now)
  {
    hide Fleets.Fleet.Sound, Fleets.Fleet.Names, Conserves, Stopped, Idle, ScaledInUpdate, Instance.IsNotRunning;
    hide Instance.Serves, Instance.IsReady, Instance.IsUpToDate, Shrinks, Recreates;
    TrackingIsSane(c, f, r, min, now);
    ScaledInUpdateIsSound(f, gone, direct);
    ScaledInUpdateNames(f, gone, direct);
    ScaledInUpdateSets(f, gone, direct);
    FewerOutdated(f, ScaledInUpdate(f, gone, direct), r, "");
    if gone.Serves(min, now) { ServingIsReady(gone, min, now); }
    CountWithout(f.update, gone.name, min, now);
  }

  lemma ScaledInUpdateSets(f: Fleet, gone: Instance, direct: bool)
    ensures ScaledInUpdate(f, gone, direct).update == f.update - {gone.name}
    ensures ScaledInUpdate(f, gone, direct).outdated == f.outdated
  {
  }

  lemma ServingIsReady(i: Instance, min: int, now: int)
    requires i.Serves(min, now)
    ensures i.IsReady() && i.IsUpToDate()
  {
  }

  lemma ScaleInOutdatedMoves(c: Counters, f: Fleet, r: set<string>, gone: Instance, min: int, now: int)
    requires HeadInvariant(c, f, r, min, now) && !c.Converged() && Decide(c) == Act(ScaleInOutdated)
    requires gone.name in f.outdated && f.outdated[gone.name] == gone
    ensures var s := Step(ScaleInOutdated, gone.IsNotRunning());
            Moves(c, f, r, s, After(c, s), SetAside(f, gone), r, min, now)
  {
    hide Fleets.Fleet.Sound, Fleets.Fleet.Names, Conserves, Idle, Stopped, Instance.IsNotRunning, Shrinks, Recreates;
    TrackingIsSane(c, f, r, min, now);
    FewerOutdated(f, SetAside(f, gone), r, gone.name);
    SetAsideIsSound(f, gone);
    SetAsideNames(f, gone);
    CountWithout(f.outdated, gone.name, min, now);
    if !gone.IsNotRunning() { RunningIsNotStopped(f.outdated, gone); }
    var s, f' := Step(ScaleInOutdated, gone.IsNotRunning()), SetAside(f, gone);
    assert Legal(c, s);
    StepKeepsSide(c, s);
    assert Tracks(After(c, s), f', r, min, now);
    assert After(c, s).Over() ==> c.Over();
    assert After(c, s).Over() ==> f'.offlined <= f'.beingOffline.Keys && f'.update.Keys <= f.update.Keys && r == {};
  }

  lemma RunningIsNotStopped(m: State, x: Instance)
    requires x.name in m && m[x.name] == x && !x.IsNotRunning()
    ensures |Stopped(m)| < |m|
  {
    SubsetIsSmaller(Stopped(m), m.Keys - {x.name});
  }

  // ---------------------------------------------------------------- recreating a running instance

  /** The fleet after an update without updating in place: a running choice is recreated. */
  function UpdatedFleet(f: Fleet, gone: Instance, o: Instance, direct: bool): Fleet
  {
    if gone.IsNotRunning() then Replaced(f, gone, o) else Recreated(f, gone, o, direct)
  }

  /** The counters still track the fleet after an update that wanted a stopped instance exactly if the
      controller's own policies leave one among the candidates. Otherwise an instance that does not
      serve yet takes the place of one in service, and the counters do not see it. */
  lemma RecreateTracksExactly(c: Counters, f: Fleet, cost: Instance -> int, custom: seq<Policy>,
                              gone: Instance, o: Instance, direct: bool, min: int, now: int)
    requires HeadInvariant(c, f, {}, min, now) && !c.Converged() && Decide(c) == Act(Update(true))
    requires forall p | p in custom :: p.WellBehaved()
    requires IsChoice(UpdatePolicies(cost, custom), f.outdated, gone)
    requires gone.IsNotRunning() ==> o.name == gone.name
    requires !gone.IsNotRunning() ==>
               o.name in ScaledInOutdated(f, gone, direct).beingOffline || o.name !in f.Names() + f.removed
    ensures var c', f' := After(c, Step(Update(true), false)), UpdatedFleet(f, gone, o, direct);
            var kept := exists x :: x in Narrow(custom, List(f.outdated)) && x.IsNotRunning();
            && (Tracks(c', f', {}, min, now) <==> kept)
            && (!kept ==> c'.Available() == c.Available()
                          && f'.InService(min, now) == f.InService(min, now) - (if o.Serves(min, now) then 0 else 1))
  {
    hide Fleets.Fleet.Sound, Fleets.Fleet.Names, Conserves, Idle, Stopped;
    hide Instance.IsNotRunning, Recreated, ScaledInOutdated;
    hide Narrow, UpdatePolicies, List, Policy.WellBehaved, Instance.Serves, Decide;
    UpdateWantsStopped(c, f, {}, min, now);
    SomeStopped(f.outdated);
    UpdatePrefersStopped(cost, custom, List(f.outdated));
    if gone.IsNotRunning() {
      UpdateMoves(c, f, {}, gone, o, true, min, now);
    } else {
      RecreatedIsSound(f, gone, o, direct);
      CountWith(f.update, o, min, now);
      CountWithout(f.outdated, gone.name, min, now);
    }
  }

  lemma UpdateWantsStopped(c: Counters, f: Fleet, r: set<string>, min: int, now: int)
    requires HeadInvariant(c, f, r, min, now) && Decide(c) == Act(Update(true))
    ensures Named(f.outdated) && Stopped(f.outdated) != {} && c.unavailableOutdated > 0
  {
  }

  /** Any set of outdated instances out of which the policies pick a running one although another is
      stopped is where the counters lose track, with the surge of one that recreating controllers
      use, whatever is scaled out instead. */
  lemma EveryWrongChoiceLosesTrack(m: State, u: Instance, cost: Instance -> int, custom: seq<Policy>, gone: Instance,
                                   o: Instance, direct: bool, min: int, now: int)
    requires Named(m) && Stopped(m) != {} && forall p | p in custom :: p.WellBehaved()
    requires IsChoice(UpdatePolicies(cost, custom), m, gone) && !gone.IsNotRunning()
    requires u.name !in m && o.name !in m && o.name != u.name
    ensures var f := Fleet(map[u.name := u], m, map[], map[], {}, {});
            var c := Counters(1, |m|, |m|, 1, |Stopped(m)|, 1, 0);
            && HeadInvariant(c, f, {}, min, now) && Decide(c) == Act(Update(true))
            && !Tracks(After(c, Step(Update(true), false)), UpdatedFleet(f, gone, o, direct), {}, min, now)
  {
    hide Narrow, UpdatePolicies, List, Policy.WellBehaved, Instance.Serves;
    hide Instance.IsNotRunning, UpdatedFleet, Conserves;
    var f := Fleet(map[u.name := u], m, map[], map[], {}, {});
    var c := Counters(1, |m|, |m|, 1, |Stopped(m)|, 1, 0);
    RunningIsNotStopped(m, gone);
    SubsetIsSmaller(Idle(f.update, min, now), {u.name});
    UpdatePrefersStopped(cost, custom, List(m)) by { SomeStopped(m); }
    RecreateTracksExactly(c, f, cost, custom, gone, o, direct, min, now);
  }

  /** A running and a stopped outdated instance in two zones, an updated one that is not ready yet, and
      a policy that prefers the zone of the running one. */
  const RUNNING := Instance("a", "1", "1", "zone-1", false, false, 0, 1, 1, "old", "old", {}, None, false, false,
                            Some(Condition(True, 1, "", 0)), Some(Condition(True, 1, "", 0)), None, None, None)
  const STOPPED := RUNNING.(name := "b", uid := "2", topology := "zone-2", running := Some(Condition(False, 1, "", 0)))
  const STARTING := RUNNING.(name := "c", uid := "3", updateRevision := "new", currentRevision := "new", ready := None)

  function InFirstZone(s: seq<Instance>): seq<Instance>
  {
    if s == [] then []
    else if s[|s| - 1].topology == "zone-1" then InFirstZone(s[..|s| - 1]) + [s[|s| - 1]]
    else InFirstZone(s[..|s| - 1])
  }

  lemma {:induction false} InFirstZoneHolds(s: seq<Instance>, x: Instance)
    ensures x in InFirstZone(s) <==> x in s && x.topology == "zone-1"
  {
    if s != [] {
      InFirstZoneHolds(s[..|s| - 1], x);
      assert s == s[..|s| - 1] + [s[|s| - 1]];
    }
  }

  lemma ZonePolicyPicksRunning(cost: Instance -> int)
    ensures var m := map["a" := RUNNING, "b" := STOPPED];
            var custom := [Custom(InFirstZone)];
            && Named(m) && Stopped(m) == {"b"} && !RUNNING.IsNotRunning()
            && (forall p | p in custom :: p.WellBehaved())
            && IsChoice(UpdatePolicies(cost, custom), m, RUNNING)
  {
    hide UpdatePolicies, List, InFirstZone;
    var m: State := map["a" := RUNNING, "b" := STOPPED];
    var custom := [Custom(InFirstZone)];
    var ps := UpdatePolicies(cost, custom);
    forall s: seq<Instance>, x: Instance ensures x in InFirstZone(s) ==> x in s { InFirstZoneHolds(s, x); }
    assert m["b"].IsNotRunning() && !m["a"].IsNotRunning();
    assert "b" in Stopped(m);
    SomeStopped(m);
    ListHolds(m, RUNNING);
    InFirstZoneHolds(List(m), RUNNING);
    assert custom[..0] == [];
    assert Narrow(custom, List(m)) == InFirstZone(List(m));
    forall x | x in InFirstZone(List(m)) ensures !x.IsNotRunning() {
      InFirstZoneHolds(List(m), x);
      ListHolds(m, x);
    }
    UpdatePrefersStopped(cost, custom, List(m));
    var x := Narrow(ps, List(m))[0];
    PoliciesAreWellBehaved(cost, custom);
    NoFilter(List(m));
    ChosenIsListed([], ps, m, x);
  }

  /** At that fleet of three the counters lose track of an instance. */
  lemma RecreateLosesTrack(cost: Instance -> int, o: Instance, direct: bool, min: int, now: int)
    requires o.name !in {"a", "b", "c"}
    ensures var m := map["a" := RUNNING, "b" := STOPPED];
            var f := Fleet(map["c" := STARTING], m, map[], map[], {}, {});
            var c := Counters(1, 2, 2, 1, 1, 1, 0);
            && HeadInvariant(c, f, {}, min, now) && Decide(c) == Act(Update(true))
            && IsChoice(UpdatePolicies(cost, [Custom(InFirstZone)]), m, RUNNING)
            && !Tracks(After(c, Step(Update(true), false)), UpdatedFleet(f, RUNNING, o, direct), {}, min, now)
  {
    hide Narrow, UpdatePolicies, List, InFirstZone, Tracks, HeadInvariant, UpdatedFleet, IsChoice, Stopped;
    var m: State := map["a" := RUNNING, "b" := STOPPED];
    ZonePolicyPicksRunning(cost);
    assert m.Keys == {"a", "b"} && |m| == 2;
    EveryWrongChoiceLosesTrack(m, STARTING, cost, [Custom(InFirstZone)], RUNNING, o, direct, min, now);
  }

  // ---------------------------------------------------------------- losing the floor

  /** A fleet above its maximum without slack: two updated instances that are not ready yet and two
      outdated ones that run, where two are desired and one more may be added. */
  const CROWDED := Fleet(map["c" := STARTING, "e" := STARTING.(name := "e")],
                         map["a" := RUNNING, "d" := RUNNING.(name := "d")], map[], map[], {}, {})
  const CROWDED_COUNTERS := Counters(2, 2, 2, 2, 0, 1, 0)

  lemma CrowdedInstances(min: int, now: int)
    ensures !STARTING.Serves(min, now) && !STARTING.(name := "e").Serves(min, now)
    ensures !RUNNING.IsNotRunning() && !RUNNING.(name := "d").IsNotRunning()
  {
  }

  lemma CrowdedIsSound()
    ensures CROWDED.Sound()
  {
  }

  lemma CrowdedCounts(min: int, now: int)
    ensures HeadInvariant(CROWDED_COUNTERS, CROWDED, {}, min, now) && CROWDED.InService(min, now) == 2
    ensures forall n | n in CROWDED.outdated :: !CROWDED.outdated[n].IsNotRunning()
  {
    hide Instance.Serves, Instance.IsNotRunning, Fleets.Fleet.Sound;
    CrowdedInstances(min, now);
    CrowdedIsSound();
    assert CROWDED.update.Keys == {"c", "e"} && CROWDED.outdated.Keys == {"a", "d"};
    assert Idle(CROWDED.update, min, now) == {"c", "e"} && Stopped(CROWDED.outdated) == {};
    assert |CROWDED.update| == 2 && |CROWDED.outdated| == 2;
  }

  /** From a fleet with these counts, setting aside a running instance loses the floor. */
  ghost predicate LosesFloor(c: Counters, f: Fleet, gone: Instance, min: int, now: int)
  {
    var s := Step(ScaleInOutdated, false);
    && HeadInvariant(c, f, {}, min, now) && Decide(c) == Act(ScaleInOutdated) && Careful(c, s)
    && Moves(c, f, {}, s, After(c, s), SetAside(f, gone), {}, min, now)
    && f.InService(min, now) == c.Available() == Floor(c)
    && SetAside(f, gone).InService(min, now) == After(c, s).Available() == Floor(c) - 1
  }

  lemma CrowdedLosesFloor(c: Counters, f: Fleet, gone: Instance, min: int, now: int)
    requires HeadInvariant(c, f, {}, min, now) && Crowded(c) && f.InService(min, now) == 2
    requires gone.name in f.outdated && f.outdated[gone.name] == gone && !gone.IsNotRunning()
    ensures LosesFloor(c, f, gone, min, now)
  {
    hide Moves, HeadInvariant, Instance.IsNotRunning, Fleets.Fleet.InService, SetAside, Decide;
    hide After, Floor, Careful, Crowded;
    hide Counters.Available, Counters.Converged;
    var s := Step(ScaleInOutdated, false);
    CrowdedStep(c, s);
    RunningCostsOne(c, s);
    SetAsideService(f, gone, min, now);
    ScaleInOutdatedMoves(c, f, {}, gone, min, now);
    assert Step(ScaleInOutdated, gone.IsNotRunning()) == s;
  }

  /** Whatever the built-in policies choose there, the loop sets aside a running instance and service
      falls below the floor, although unavailable instances are taken first. */
  lemma FloorIsLost(cost: Instance -> int, min: int, now: int) returns (gone: Instance)
    ensures IsChoice(ScaleInPolicies(cost, []), CROWDED.outdated, gone)
    ensures LosesFloor(CROWDED_COUNTERS, CROWDED, gone, min, now)
  {
    hide ScaleInPolicies, HeadInvariant, Instance.IsNotRunning, IsChoice, Fleets.Fleet.InService, LosesFloor;
    CrowdedCounts(min, now);
    CrowdedIsNamed();
    gone := ScaleInHasChoice(cost, CROWDED.outdated);
    ChosenIsHeld(ScaleInPolicies(cost, []), CROWDED.outdated, gone);
    CrowdedLosesFloor(CROWDED_COUNTERS, CROWDED, gone, min, now);
  }

  lemma SetAsideService(f: Fleet, gone: Instance, min: int, now: int)
    requires gone.name in f.outdated && f.outdated[gone.name] == gone && !gone.IsNotRunning()
    ensures SetAside(f, gone).InService(min, now) == f.InService(min, now) - 1
  {
    hide Idle, Stopped, Instance.IsNotRunning;
    CountWithout(f.outdated, gone.name, min, now);
  }

  lemma CrowdedIsNamed()
    ensures Named(CROWDED.outdated) && CROWDED.outdated != map[]
  {
    assert "a" in CROWDED.outdated;
  }

  lemma ChosenIsHeld(ps: seq<Policy>, m: State, x: Instance)
    requires IsChoice(ps, m, x)
    ensures x.name in m && m[x.name] == x
  {
  }

  lemma ScaleInHasChoice(cost: Instance -> int, m: State) returns (gone: Instance)
    requires Named(m) && m != map[]
    ensures IsChoice(ScaleInPolicies(cost, []), m, gone)
  {
    hide Narrow, ScaleInPolicies, List;
    var ps := ScaleInPolicies(cost, []);
    ListEmpty(m);
    PoliciesAreWellBehaved(cost, []);
    NarrowIsNonEmpty(ps, List(m));
    gone := Narrow(ps, List(m))[0];
    NoFilter(List(m));
    ChosenIsListed([], ps, m, gone);
  }

  // ---------------------------------------------------------------- scaling in carefully

  /** Instances that are ready and up to date serve: none is ready but not yet available. */
  ghost predicate Plain(m: State, min: int, now: int)
  {
    forall n | n in m :: m[n].Serves(min, now) <==> !Down(m[n])
  }

  /** After every sequence of hooks the policies take unavailable instances first, out of those that the
      hooks were not told are gone. */
  ghost predicate TakesInTurn(ps: Policies, f: Fleet)
  {
    forall h :: TakesDown(ps(h), f.update - Gone(h)) && TakesStopped(ps(h), f.outdated - Gone(h))
  }

  /** While above the maximum the counters are exact, no updated instance is ready but not available,
      nothing there is gone, and the scale-in policies take unavailable instances first. `h` are the
      hooks so far. */
  ghost predicate Gentle(c: Counters, f: Fleet, ps: Policies, h: seq<Hook>, min: int, now: int)
  {
    c.Over() ==>
      && c.unavailableUpdate == |Idle(f.update, min, now)| && Plain(f.update, min, now)
      && f.update.Keys !! Gone(h) && f.outdated.Keys !! Gone(h) && TakesInTurn(ps, f)
  }

  lemma TakesFromLess(ps: seq<Policy>, m: State, less: State)
    requires Submap(less, m)
    ensures TakesDown(ps, m) ==> TakesDown(ps, less)
    ensures TakesStopped(ps, m) ==> TakesStopped(ps, less)
  {
    hide IsChoice, Instance.IsNotRunning, Down, Stopped;
    assert forall sub: State | Submap(sub, less) :: Submap(sub, m);
  }

  lemma TakesLikewise(ps: Policies, f: Fleet, f': Fleet)
    requires Submap(f'.update, f.update) && Submap(f'.outdated, f.outdated)
    requires TakesInTurn(ps, f)
    ensures TakesInTurn(ps, f')
  {
    hide TakesDown, TakesStopped;
    forall h ensures TakesDown(ps(h), f'.update - Gone(h)) && TakesStopped(ps(h), f'.outdated - Gone(h)) {
      TakesFromLess(ps(h), f.update - Gone(h), f'.update - Gone(h));
      TakesFromLess(ps(h), f.outdated - Gone(h), f'.outdated - Gone(h));
    }
  }

  /** At a loop head everybody is still there to be taken. */
  lemma TakesNow(ps: Policies, f: Fleet, h: seq<Hook>)
    requires TakesInTurn(ps, f) && f.update.Keys !! Gone(h) && f.outdated.Keys !! Gone(h)
    ensures TakesDown(ps(h), f.update) && TakesStopped(ps(h), f.outdated)
  {
    hide TakesDown, TakesStopped;
    assert f.update - Gone(h) == f.update && f.outdated - Gone(h) == f.outdated;
  }

  lemma NothingDown(m: State, min: int, now: int)
    requires Plain(m, min, now) && forall n | n in m :: !Down(m[n])
    ensures Idle(m, min, now) == {}
  {
    hide Instance.Serves, Down;
  }

  lemma GentleScaleInUpdate(c: Counters, f: Fleet, ps: Policies, h: seq<Hook>, gone: Instance, direct: bool,
                            min: int, now: int)
    requires HeadInvariant(c, f, {}, min, now) && !c.Converged() && Decide(c) == Act(ScaleInUpdate)
    requires Gentle(c, f, ps, h, min, now) && IsChoice(ps(h), f.update, gone)
    ensures var s, h' := Step(ScaleInUpdate, Down(gone)), h + [DeleteHook(gone.name)];
            Careful(c, s) && Gentle(After(c, s), ScaledInUpdate(f, gone, direct), ps, h', min, now)
  {
    hide Fleets.Fleet.Sound, Idle, TakesDown, TakesInTurn, TakesStopped, Gone, Down, ScaledInUpdate;
    hide IsChoice, HeadInvariant, Plain;
    var f', s := ScaledInUpdate(f, gone, direct), Step(ScaleInUpdate, Down(gone));
    HeadIsNamed(c, f, {}, min, now);
    ChosenIsHeld(ps(h), f.update, gone);
    ScaledInUpdateSets(f, gone, direct);
    StaysApart(f, gone.name);
    TakesNow(ps, f, h);
    IdleAfter(c, f.update, ps(h), gone, min, now);
    StillGentle(After(c, s), f, f', ps, h, gone.name, min, now);
  }

  /** The counter stays exact, and what is taken serves only if nothing idle is left. */
  lemma IdleAfter(c: Counters, m: State, ps: seq<Policy>, gone: Instance, min: int, now: int)
    requires c.unavailableUpdate == |Idle(m, min, now)| && Plain(m, min, now)
    requires TakesDown(ps, m) && IsChoice(ps, m, gone)
    ensures var s := Step(ScaleInUpdate, Down(gone));
            && After(c, s).unavailableUpdate == |Idle(m - {gone.name}, min, now)|
            && (!Down(gone) ==> c.unavailableUpdate == 0)
  {
    hide Idle, Stopped, TakesDown, Instance.Serves, Down, IsChoice, Plain;
    ChosenIsHeld(ps, m, gone);
    CountWithout(m, gone.name, min, now);
    PlainFromLess(m, gone.name, min, now);
    if !Down(gone) {
      NoneIsDown(ps, m, gone);
      NothingDown(m, min, now);
    }
  }

  lemma StillGentle(c': Counters, f: Fleet, f': Fleet, ps: Policies, h: seq<Hook>, n: string, min: int, now: int)
    requires f'.update == f.update - {n} && f'.outdated == f.outdated && n !in f.outdated
    requires TakesInTurn(ps, f) && Plain(f.update, min, now)
    requires f.update.Keys !! Gone(h) && f.outdated.Keys !! Gone(h)
    requires c'.unavailableUpdate == |Idle(f'.update, min, now)|
    ensures Gentle(c', f', ps, h + [DeleteHook(n)], min, now)
  {
    hide Idle, TakesInTurn, Gone, Plain, Submap;
    LessIsSubmap(f.update, n);
    LessIsSubmap(f.outdated, n);
    TakesLikewise(ps, f, f');
    PlainFromLess(f.update, n, min, now);
    GoneToo(h, n);
  }

  lemma PlainFromLess(m: State, n: string, min: int, now: int)
    ensures Plain(m, min, now) ==> Plain(m - {n}, min, now)
    ensures Plain(m, min, now) && n in m ==> (m[n].Serves(min, now) <==> !Down(m[n]))
  {
    hide Instance.Serves, Down;
  }

  lemma LessIsSubmap(m: State, n: string)
    ensures Submap(m - {n}, m) && Submap(m, m)
  {
  }

  lemma NoneIsDown(ps: seq<Policy>, m: State, gone: Instance)
    requires TakesDown(ps, m) && IsChoice(ps, m, gone) && !Down(gone)
    ensures forall n | n in m :: !Down(m[n])
  {
    hide IsChoice, Down;
    assert Submap(m, m);
  }

  lemma NoneIsStopped(ps: seq<Policy>, m: State, gone: Instance)
    requires TakesStopped(ps, m) && IsChoice(ps, m, gone) && !gone.IsNotRunning()
    ensures Stopped(m) == {}
  {
    hide IsChoice, Instance.IsNotRunning, Stopped;
    assert Submap(m, m);
  }

  lemma GentleScaleInOutdated(c: Counters, f: Fleet, r: set<string>, ps: Policies, h: seq<Hook>, gone: Instance,
                              min: int, now: int)
    requires HeadInvariant(c, f, r, min, now) && !c.Converged() && Decide(c) == Act(ScaleInOutdated)
    requires Gentle(c, f, ps, h, min, now) && IsChoice(ps(h), f.outdated, gone)
    ensures var s, h' := Step(ScaleInOutdated, gone.IsNotRunning()), h + [DeleteHook(gone.name)];
            Careful(c, s) && Gentle(After(c, s), SetAside(f, gone), ps, h', min, now)
  {
    hide Fleets.Fleet.Sound, Narrow, List, Idle, Stopped, TakesDown, TakesStopped, Instance.IsNotRunning, Plain, Moves;
    hide Legal, Decide, TakesInTurn, Gone;
    var s := Step(ScaleInOutdated, gone.IsNotRunning());
    GoneToo(h, gone.name);
    TrackingIsSane(c, f, r, min, now);
    ScaleInOutdatedMoves(c, f, r, gone, min, now);
    MovesIsAfter(c, f, r, s, After(c, s), SetAside(f, gone), r, min, now);
    StepKeepsSide(c, s);
    if c.Over() {
      TakesNow(ps, f, h);
      StaysApart(f, gone.name);
      TakesLikewise(ps, f, SetAside(f, gone));
      if !gone.IsNotRunning() { NoneIsStopped(ps(h), f.outdated, gone); }
    }
  }

  lemma StaysApart(f: Fleet, n: string)
    requires f.Sound()
    ensures n in f.update ==> n !in f.outdated
  {
  }

  lemma GentleElsewhere(c: Counters, f: Fleet, r: set<string>, s: Step, f': Fleet, ps: Policies, h: seq<Hook>,
                        min: int, now: int)
    requires HeadInvariant(c, f, r, min, now) && Legal(c, s) && (s.call.ScaleOut? || s.call.Update?)
    ensures Careful(c, s) && Gentle(After(c, s), f', ps, h, min, now)
  {
    TrackingIsSane(c, f, r, min, now);
    StepKeepsSide(c, s);
  }

  // ---------------------------------------------------------------- choices

  lemma HeadIsNamed(c: Counters, f: Fleet, r: set<string>, min: int, now: int)
    requires HeadInvariant(c, f, r, min, now)
    ensures Named(f.update) && Named(f.outdated) && Named(f.deleted) && Named(f.beingOffline)
    ensures f.update.Keys <= f.Names() && f.outdated.Keys <= f.Names()
    ensures f.deleted.Keys <= f.Names() && f.beingOffline.Keys <= f.Names()
    ensures f.Sound() && f.removed !! f.offlined
  {
  }

  /** There is always something to choose when the loop asks for it. */
  lemma SomethingToChoose(c: Counters, f: Fleet, r: set<string>, min: int, now: int)
    requires HeadInvariant(c, f, r, min, now) && !c.Converged()
    ensures Decide(c) == Act(ScaleInUpdate) ==> f.update != map[]
    ensures Decide(c).Act? && (Decide(c).call.Update? || Decide(c).call.ScaleInOutdated?) ==> f.outdated != map[]
  {
    hide Fleets.Fleet.Sound, Stopped, Idle;
    TrackingIsSane(c, f, r, min, now);
  }

  /** With policies that pick a stopped instance where there is one, such as the built-in ones, an
      update that wants a stopped instance gets one. */
  lemma StoppedIsChosen(c: Counters, f: Fleet, r: set<string>, ps: seq<Policy>, gone: Instance, min: int, now: int)
    requires HeadInvariant(c, f, r, min, now) && Decide(c) == Act(Update(true))
    requires PicksStopped(ps) && IsChoice(ps, f.outdated, gone)
    ensures gone.IsNotRunning()
  {
    hide Stopped, Idle, Narrow, HeadInvariant, Named, IsChoice, Instance.IsNotRunning;
    UpdateWantsStopped(c, f, r, min, now);
  }

  // ---------------------------------------------------------------- recording a run

  /** The run of the counters so far, with the number of instances in service at each loop head, of
      which `lost` may be claimed in excess. */
  ghost predicate RunRecorded(run: Run, service: seq<int>, c0: Counters, c: Counters, lost: int)
  {
    && IsRun(run) && First(run) == c0 && Last(run) == c && |service| == |run.heads| > 0
    && forall i | 0 <= i < |service| :: run.heads[i].Available() - lost <= service[i]
  }

  /** What has become of the fleet since the start, and which running instances were recreated. */
  ghost predicate FleetRecorded(c0: Counters, f0: Fleet, c: Counters, f: Fleet, r: set<string>)
  {
    && Conserves(f0, f) && Shrinks(f0, f) && Recreates(f0, {}, r)
    && |r| <= c0.unavailableOutdated && |r| + c.unavailableOutdated <= c0.unavailableOutdated
    && f.removed <= f0.removed + f0.update.Keys + r
    && (c.Over() ==> f.update.Keys <= f0.update.Keys)
  }

  ghost predicate Recorded(run: Run, service: seq<int>, c0: Counters, f0: Fleet, c: Counters, f: Fleet, r: set<string>,
                           min: int, now: int)
  {
    && RunRecorded(run, service, c0, c, |r|) && service[0] == f0.InService(min, now)
    && FleetRecorded(c0, f0, c, f, r)
  }

  function Extended(run: Run, s: Step, c': Counters): Run
  {
    Run(run.heads + [c'], run.steps + [s])
  }

  lemma ExtendedIsRun(run: Run, s: Step, c': Counters)
    requires IsRun(run) && Open(run) && Legal(Last(run), s) && c' == After(Last(run), s)
    ensures var r := Extended(run, s, c');
            && IsRun(r) && First(r) == First(run) && Last(r) == c'
            && r.heads[|r.steps| - 1] == Last(run) && r.steps[|r.steps| - 1] == s
  {
    hide Legal, After, Stops;
    var r := Extended(run, s, c');
    assert forall i | 0 <= i < |run.heads| :: r.heads[i] == run.heads[i];
    assert forall i | 0 <= i < |run.steps| :: r.steps[i] == run.steps[i];
  }

  lemma RecreatesIsTransitive(f0: Fleet, f: Fleet, r: set<string>, r': set<string>)
    requires Shrinks(f0, f) && Recreates(f0, {}, r) && Recreates(f, r, r')
    ensures Recreates(f0, {}, r')
  {
    hide Instance.IsNotRunning;
  }

  /** The bounds on what was recreated, after one more step. */
  lemma RecreatedStep(c0: Counters, f0: Fleet, c: Counters, f: Fleet, r: set<string>, s: Step, r': set<string>)
    requires Shrinks(f0, f) && Recreates(f0, {}, r) && Recreates(f, r, r')
    requires Legal(c, s) && (r' == r || (s.call == Update(true) && |r'| == |r| + 1))
    requires |r| <= c0.unavailableOutdated && |r| + c.unavailableOutdated <= c0.unavailableOutdated
    ensures Recreates(f0, {}, r')
    ensures |r'| <= c0.unavailableOutdated && |r'| + After(c, s).unavailableOutdated <= c0.unavailableOutdated
  {
    hide Recreates, Shrinks;
    RecreatesIsTransitive(f0, f, r, r');
  }

  lemma RecordRun(run: Run, service: seq<int>, c0: Counters, c: Counters, lost: int,
                  s: Step, c': Counters, serving: int, lost': int)
    requires RunRecorded(run, service, c0, c, lost) && Open(run) && Legal(c, s) && c' == After(c, s)
    requires lost <= lost' && c'.Available() - lost' <= serving
    ensures RunRecorded(Extended(run, s, c'), service + [serving], c0, c', lost')
    ensures Open(Extended(run, s, c')) <==> !Stops(c, s)
  {
    hide Legal, After, Stops, IsRun;
    ExtendedIsRun(run, s, c');
  }

  lemma RecordFleet(c0: Counters, f0: Fleet, c: Counters, f: Fleet, r: set<string>,
                    s: Step, c': Counters, f': Fleet, r': set<string>, min: int, now: int)
    requires FleetRecorded(c0, f0, c, f, r)
    requires HeadInvariant(c, f, r, min, now) && Moves(c, f, r, s, c', f', r', min, now)
    ensures FleetRecorded(c0, f0, c', f', r')
  {
    hide Fleets.Fleet.Sound, Conserves, Shrinks, Tracks, Instance.IsNotRunning, Legal, After, Recreates;
    hide Counters.Over, Counters.Sane;
    TrackingIsSane(c, f, r, min, now);
    StepKeepsSide(c, s);
    OverStaysOver(c, c');
    RecreatesGrows(f, r, r');
    ConservesIsTransitive(f0, f, f');
    RecreatedStep(c0, f0, c, f, r, s, r');
    ShrinksIsTransitive(f0, f, f');
  }

  lemma RecreatesGrows(f: Fleet, r: set<string>, r': set<string>)
    requires Recreates(f, r, r')
    ensures r <= r'
  {
  }

  lemma OverStaysOver(c: Counters, c': Counters)
    requires c.Actual() <= c.Maximum() ==> c'.Actual() <= c'.Maximum()
    ensures c'.Over() ==> c.Over()
  {
  }

  lemma RecordStep(run: Run, service: seq<int>, c0: Counters, f0: Fleet, c: Counters, f: Fleet, r: set<string>,
                   s: Step, c': Counters, f': Fleet, r': set<string>, min: int, now: int)
    requires Recorded(run, service, c0, f0, c, f, r, min, now) && Open(run)
    requires HeadInvariant(c, f, r, min, now) && Moves(c, f, r, s, c', f', r', min, now)
    ensures Recorded(Extended(run, s, c'), service + [f'.InService(min, now)], c0, f0, c', f', r', min, now)
    ensures Open(Extended(run, s, c')) <==> !Stops(c, s)
  {
    hide Fleets.Fleet.Sound, Fleets.Fleet.InService, Conserves, Legal, After, Stops;
    hide IsRun, Shrinks, Recreates, Stopped, Idle;
    hide FleetRecorded;
    TrackingIsSane(c', f', r', min, now);
    RecordRun(run, service, c0, c, |r|, s, c', f'.InService(min, now), |r'|);
    RecordFleet(c0, f0, c, f, r, s, c', f', r', min, now);
  }

  lemma ShrinksIsTransitive(f: Fleet, g: Fleet, h: Fleet)
    requires Shrinks(f, g) && Shrinks(g, h)
    ensures Shrinks(f, h)
  {
  }

  lemma NextHead(c: Counters, f: Fleet, r: set<string>, s: Step, c': Counters, f': Fleet, r': set<string>,
                 min: int, now: int)
    requires HeadInvariant(c, f, r, min, now) && Moves(c, f, r, s, c', f', r', min, now)
    ensures HeadInvariant(c', f', r', min, now) && 0 <= c'.Distance() < c.Distance()
  {
    hide Fleets.Fleet.Sound, Conserves, Stopped, Idle, Shrinks, Recreates;
    TrackingIsSane(c, f, r, min, now);
    StepKeepsSane(c, s);
  }

  /** Cleaning up deletes nothing that this actor marked offline. */
  lemma CleanupIsSafe(f: Fleet, done: set<string>, direct: bool)
    requires f.Sound() && done <= f.deleted.Keys
    ensures var draining := Draining(f, done, direct);
            f.removed + (done - draining) !! f.offlined + draining
  {
  }

  /** The instances in service never drop below the floor the counters promise, less those that
      were recreated. */
  lemma ServiceFloor(run: Run, service: seq<int>, c0: Counters, f0: Fleet, c: Counters, f: Fleet, r: set<string>,
                     min: int, now: int)
    requires Recorded(run, service, c0, f0, c, f, r, min, now)
    ensures forall i | 0 <= i < |service| :: service[i] >= Floor(c0) - 1 - |r|
    ensures IsRun(run) && (FloorIsSafe(c0) || (CarefulRun(run) && CarefulFloorIsSafe(c0))) ==>
              forall i | 0 <= i < |service| :: service[i] >= Floor(c0) - |r|
  {
    hide Floor, FloorIsSafe, CarefulFloorIsSafe, CarefulRun, Conserves, Shrinks, Recreates;
    FloorExactly(c0);
    if CarefulRun(run) && CarefulFloorIsSafe(c0) { CarefulRunKeepsFloor(run); }
    forall i | 0 <= i < |service| ensures service[i] >= Floor(c0) - 1 - |r| {
      AvailabilityFloor(run, i);
    }
  }

  /** Over a run from `c0` and `f0`: the counters never claim more than is in service, up to what was
      recreated; service keeps the floor, up to that; and what was recreated was outdated and running,
      and no more than the counters had as down. */
  ghost predicate KeepsService(run: Run, service: seq<int>, c0: Counters, f0: Fleet, recreated: set<string>)
  {
    && |service| == |run.heads|
    && (forall i | 0 <= i < |service| :: run.heads[i].Available() - |recreated| <= service[i])
    && (forall i | 0 <= i < |service| :: service[i] >= Floor(c0) - 1 - |recreated|)
    && (IsRun(run) && (FloorIsSafe(c0) || (CarefulRun(run) && CarefulFloorIsSafe(c0))) ==>
          forall i | 0 <= i < |service| :: service[i] >= Floor(c0) - |recreated|)
    && (forall n | n in recreated :: n in f0.outdated && !f0.outdated[n].IsNotRunning())
    && |recreated| <= c0.unavailableOutdated
  }

  lemma RecordedMeans(run: Run, service: seq<int>, c0: Counters, f0: Fleet, c: Counters, f: Fleet, r: set<string>,
                      min: int, now: int)
    requires Recorded(run, service, c0, f0, c, f, r, min, now)
    ensures IsRun(run) && First(run) == c0 && Last(run) == c
    ensures service != [] && service[0] == f0.InService(min, now) && KeepsService(run, service, c0, f0, r)
    ensures Conserves(f0, f) && f.removed <= f0.removed + f0.update.Keys + r
  {
    hide Floor, FloorIsSafe, CarefulFloorIsSafe, CarefulRun, Conserves, Instance.IsNotRunning;
    ServiceFloor(run, service, c0, f0, c, f, r, min, now);
  }

  lemma MoreRecreated(run: Run, service: seq<int>, c0: Counters, f0: Fleet, r: set<string>, r': set<string>)
    requires KeepsService(run, service, c0, f0, r) && |r| <= |r'| <= c0.unavailableOutdated && Recreates(f0, {}, r')
    ensures KeepsService(run, service, c0, f0, r')
  {
    hide Floor, FloorIsSafe, CarefulFloorIsSafe, CarefulRun, IsRun, Instance.IsNotRunning;
  }

  /** What a failed pass leaves: at worst the first half of a replacement. */
  ghost predicate Fails(c: Counters, f: Fleet, r: set<string>, f': Fleet, r': set<string>)
  {
    && f'.removed !! f'.offlined && f'.removed <= f.removed + (r' - r) && Recreates(f, r, r')
    && (r' == r || (c.unavailableOutdated > 0 && |r'| == |r| + 1))
  }

  lemma FailedQuietly(c: Counters, f: Fleet, r: set<string>, f': Fleet, min: int, now: int)
    requires HeadInvariant(c, f, r, min, now) && f'.removed == f.removed && f'.offlined == f.offlined
    ensures Fails(c, f, r, f', r) && Leaves(f, f', true) && Leaves(f, f', false)
  {
    HeadIsNamed(c, f, r, min, now);
  }

  lemma FailedHalfway(c: Counters, f: Fleet, r: set<string>, f': Fleet, gone: Instance, direct: bool,
                      min: int, now: int)
    requires HeadInvariant(c, f, r, min, now) && Decide(c) == Act(Update(true))
    requires gone.name in f.outdated && f.outdated[gone.name] == gone && !gone.IsNotRunning()
    requires var g := ScaledInOutdated(f, gone, direct);
             (f'.removed == f.removed && f'.offlined == f.offlined)
               || (f'.removed == g.removed && f'.offlined == g.offlined)
    ensures Fails(c, f, r, f', r + {gone.name}) && Leaves(f, f', direct)
  {
    hide Fleets.Fleet.Names, Conserves, Idle, Stopped, Instance.IsNotRunning, ScaledInOutdated, Leaves, HeadInvariant;
    hide Fleets.Fleet.Sound, Named, Decide;
    HalfwayLeaves(f, f', gone, direct);
    UpdateWantsStopped(c, f, r, min, now);
    HeadIsNamed(c, f, r, min, now);
    RecreatedIsApart(c, f, r, min, now);
    ScaledInOutdatedIsSound(f, gone, direct);
    ScaledInOutdatedNames(f, gone, direct);
    SoundIsApart(ScaledInOutdated(f, gone, direct));
  }

  lemma RecreatedIsApart(c: Counters, f: Fleet, r: set<string>, min: int, now: int)
    requires HeadInvariant(c, f, r, min, now)
    ensures r !! f.outdated.Keys
  {
  }

  lemma SoundIsApart(f: Fleet)
    requires f.Sound()
    ensures f.removed !! f.offlined
  {
  }

  lemma HalfwayLeaves(f: Fleet, f': Fleet, gone: Instance, direct: bool)
    requires gone.name in f.outdated && f.outdated[gone.name] == gone
    requires f'.removed == f.removed || f'.removed == ScaledInOutdated(f, gone, direct).removed
    ensures Leaves(f, f', direct)
  {
  }

  lemma FailedPass(run: Run, service: seq<int>, c0: Counters, f0: Fleet, c: Counters, f: Fleet, r: set<string>,
                   f': Fleet, r': set<string>, min: int, now: int)
    requires Recorded(run, service, c0, f0, c, f, r, min, now) && Fails(c, f, r, f', r')
    ensures KeepsService(run, service, c0, f0, r')
    ensures f'.removed !! f'.offlined && f'.removed <= f0.removed + f0.update.Keys + r'
  {
    hide KeepsService, RunRecorded, Conserves, Instance.IsNotRunning, Shrinks;
    RecreatesIsTransitive(f0, f, r, r');
    RecordedMeans(run, service, c0, f0, c, f, r, min, now);
    MoreRecreated(run, service, c0, f0, r, r');
  }
}
