/** The executor's loop over a concrete actor. */
module Executors {
  import opened Instances
  import opened Selection
  import opened Fleets
  import opened Lineages
  import opened Actors
  import opened Rollout
  import opened Tracking

  class Executor {
    var update: int
    var outdated: int
    var desired: int
    var unavailableUpdate: int
    var unavailableOutdated: int
    var maxSurge: int
    var maxUnavailable: int
    const act: Actor

    // The clock and threshold the instances were counted with.
    ghost const minReadySeconds: int
    ghost const now: int

    constructor (act: Actor, update: int, outdated: int, desired: int, unavailableUpdate: int,
                 unavailableOutdated: int, maxSurge: int, maxUnavailable: int,
                 ghost minReadySeconds: int, ghost now: int)
      ensures this.act == act && this.minReadySeconds == minReadySeconds && this.now == now
      ensures View() ==
                Counters(update, outdated, desired, unavailableUpdate, unavailableOutdated, maxSurge, maxUnavailable)
    {
      this.act := act;
      this.update, this.outdated, this.desired := update, outdated, desired;
      this.unavailableUpdate, this.unavailableOutdated := unavailableUpdate, unavailableOutdated;
      this.maxSurge, this.maxUnavailable := maxSurge, maxUnavailable;
      this.minReadySeconds, this.now := minReadySeconds, now;
    }

    function View(): Counters
      reads this
    {
      Counters(update, outdated, desired, unavailableUpdate, unavailableOutdated, maxSurge, maxUnavailable)
    }

    /** The policies pick a stopped instance to update out of every set that has one, whatever the hooks. */
    ghost predicate UpdatesStopped()
    {
      forall h :: PicksStopped(act.updatePolicies(h))
    }

    /** Above the maximum, unavailable instances are scaled in first. */
    ghost predicate ScalesInGently()
      reads this, act
    {
      Gentle(View(), act.View(), act.scaleInPolicies, act.hooks, minReadySeconds, now)
    }

    ghost predicate AtHead(recreated: set<string>)
      reads this, act
    {
      act.Supplied() && HeadInvariant(View(), act.View(), recreated, minReadySeconds, now)
    }

    /** Whether a call makes updated instances. */
    static predicate Adds(call: Call) { call.ScaleOut? || call.Update? }

    /** Has the actor add an instance or take one back; the counters are yet to follow. */
    method CallScaleOut(ghost r: set<string>) returns (err: Error, ghost s: Step)
      requires AtHead(r) && !View().Converged() && Decide(View()) == Act(ScaleOut)
      modifies act
      ensures (err == NoError || err == ApiFailed) && s == Step(ScaleOut, false)
      ensures err == NoError ==>
                && act.Supplied()
                && Moves(View(), old(act.View()), r, s, After(View(), s), act.View(), r, minReadySeconds, now)
                && Descends(true, old(act.View()), act.View(), act.factory, act.directDeleteOutdated)
      ensures err != NoError ==>
                && Fails(View(), old(act.View()), r, act.View(), r)
                && Leaves(old(act.View()), act.View(), act.directDeleteOutdated)
      ensures err == ApiFailed <==> act.failures != old(act.failures)
    {
      hide Fleets.Fleet.Names, Named, NameSupply, HeadInvariant, Moves, Decide, Fails, After, Revived, Added;
      hide Descends, Leaves, MadeBy;
      hide IsFilteredChoice, AnyEligible, CancelOfflinePolicies;
      ghost var o;
      ghost var f := act.View();
      HeadIsNamed(View(), f, r, minReadySeconds, now);
      err, o := act.ScaleOut();
      s := Step(ScaleOut, false);
      if err == NoError {
        ScaleOutSucceeds(View(), f, r, o, act.factory, act.directDeleteOutdated, old(act.used), act.used,
                         minReadySeconds, now);
      } else {
        FailedQuietly(View(), f, r, act.View(), minReadySeconds, now);
      }
    }

    method StepScaleOut(ghost r: set<string>) returns (err: Error, ghost s: Step)
      requires AtHead(r) && !View().Converged() && Decide(View()) == Act(ScaleOut)
      modifies this`update, this`unavailableUpdate, act
      ensures err == NoError || err == ApiFailed
      ensures err == NoError ==>
                && act.Supplied() && s.call == ScaleOut && Careful(old(View()), s) && ScalesInGently()
                && Moves(old(View()), old(act.View()), r, s, View(), act.View(), r, minReadySeconds, now)
                && Descends(true, old(act.View()), act.View(), act.factory, act.directDeleteOutdated)
      ensures err != NoError ==>
                && View() == old(View()) && Fails(old(View()), old(act.View()), r, act.View(), r)
                && Leaves(old(act.View()), act.View(), act.directDeleteOutdated)
      ensures err == ApiFailed <==> act.failures != old(act.failures)
    {
      hide HeadInvariant, Moves, Decide, Fails, Gentle, Careful, Actor.Supplied, Descends, Leaves;
      ghost var c, f := View(), act.View();
      err, s := CallScaleOut(r);
      if err != NoError {
        return;
      }
      MovesIsAfter(c, f, r, s, After(c, s), act.View(), r, minReadySeconds, now);
      GentleElsewhere(c, f, r, s, act.View(), act.scaleInPolicies, act.hooks, minReadySeconds, now);
      update := update + 1;
      unavailableUpdate := unavailableUpdate + 1;
    }

    /** Has the actor update an instance; the counters are yet to follow. `r'` adds the running instance
        that was taken away to be recreated, which needs a stopped one to be wanted and policies that
        outrank that wish. */
    method CallUpdate(unavailable: bool, ghost r: set<string>)
      returns (err: Error, ghost s: Step, ghost r': set<string>)
      requires AtHead(r) && act.PoliciesWellBehaved()
      requires !View().Converged() && Decide(View()) == Act(Update(unavailable))
      modifies act
      ensures err != NothingToChoose && s == Step(Update(unavailable), false)
      ensures err == WantedUnavailable ==> !act.noInPlaceUpdate && !UpdatesStopped()
      ensures r' != r ==> act.noInPlaceUpdate && !UpdatesStopped()
      ensures err == NoError ==>
                && act.Supplied()
                && Moves(View(), old(act.View()), r, s, After(View(), s), act.View(), r', minReadySeconds, now)
                && Descends(true, old(act.View()), act.View(), act.factory, act.directDeleteOutdated)
      ensures err != NoError ==>
                && Fails(View(), old(act.View()), r, act.View(), r')
                && Leaves(old(act.View()), act.View(), act.directDeleteOutdated)
      ensures err == ApiFailed <==> act.failures != old(act.failures)
    {
      hide Descends, Leaves, MadeBy;
      hide Fleets.Fleet.Names, Named, NameSupply, HeadInvariant, Moves, Decide, IsChoice, Fails, PicksStopped, After;
      hide Actor.PoliciesWellBehaved, Instance.IsNotRunning, Recreated, ScaledInOutdated, Replaced;
      ghost var gone, o;
      ghost var f := act.View();
      HeadIsNamed(View(), f, r, minReadySeconds, now);
      SomethingToChoose(View(), f, r, minReadySeconds, now);
      ghost var ps := act.updatePolicies(act.hooks);
      err, gone, o := act.Update(unavailable);
      s, r' := Step(Update(unavailable), false), r;
      ChosenIsHeld(ps, f.outdated, gone);
      if unavailable && UpdatesStopped() {
        StoppedIsChosen(View(), f, r, ps, gone, minReadySeconds, now);
      }
      ghost var recreates := act.noInPlaceUpdate && unavailable && !gone.IsNotRunning();
      if recreates {
        r' := r + {gone.name};
      }
      if err == NoError {
        UpdateSucceeds(View(), f, r, gone, o, unavailable, recreates, act.factory, act.directDeleteOutdated,
                       old(act.used), act.used, minReadySeconds, now);
      } else if recreates {
        FailedHalfway(View(), f, r, act.View(), gone, act.directDeleteOutdated, minReadySeconds, now);
      } else {
        FailedQuietly(View(), f, r, act.View(), minReadySeconds, now);
      }
    }

    method StepUpdate(unavailable: bool, ghost r: set<string>)
      returns (err: Error, ghost s: Step, ghost r': set<string>)
      requires AtHead(r) && act.PoliciesWellBehaved()
      requires !View().Converged() && Decide(View()) == Act(Update(unavailable))
      modifies this`update, this`outdated, this`unavailableUpdate, this`unavailableOutdated, act
      ensures err != NothingToChoose
      ensures err == WantedUnavailable ==> !act.noInPlaceUpdate && !UpdatesStopped()
      ensures r' != r ==> act.noInPlaceUpdate && !UpdatesStopped()
      ensures err == NoError ==>
                && act.Supplied() && s.call == Update(unavailable) && Careful(old(View()), s) && ScalesInGently()
                && Moves(old(View()), old(act.View()), r, s, View(), act.View(), r', minReadySeconds, now)
                && Descends(true, old(act.View()), act.View(), act.factory, act.directDeleteOutdated)
      ensures err != NoError ==>
                && View() == old(View()) && Fails(old(View()), old(act.View()), r, act.View(), r')
                && Leaves(old(act.View()), act.View(), act.directDeleteOutdated)
      ensures err == ApiFailed <==> act.failures != old(act.failures)
    {
      hide HeadInvariant, Moves, Decide, Fails, PicksStopped, Descends, Leaves;
      hide Gentle, Careful, Actor.Supplied, Actor.PoliciesWellBehaved;
      hide Executor.UpdatesStopped;
      ghost var c, f := View(), act.View();
      err, s, r' := CallUpdate(unavailable, r);
      if err != NoError {
        return;
      }
      MovesIsAfter(c, f, r, s, After(c, s), act.View(), r', minReadySeconds, now);
      GentleElsewhere(c, f, r, s, act.View(), act.scaleInPolicies, act.hooks, minReadySeconds, now);
      outdated := outdated - 1;
      if unavailable {
        unavailableOutdated := unavailableOutdated - 1;
      }
      update := update + 1;
      unavailableUpdate := unavailableUpdate + 1;
    }

    /** Has the actor scale in an updated instance; the counters are yet to follow. */
    method CallScaleInUpdate(ghost r: set<string>) returns (unavailable: bool, err: Error, ghost s: Step)
      requires AtHead(r) && act.PoliciesWellBehaved()
      requires !View().Converged() && Decide(View()) == Act(ScaleInUpdate)
      modifies act
      ensures (err == NoError || err == ApiFailed) && s == Step(ScaleInUpdate, unavailable)
      ensures err == NoError ==>
                && act.Supplied()
                && Moves(View(), old(act.View()), r, s, After(View(), s), act.View(), r, minReadySeconds, now)
                && Descends(false, old(act.View()), act.View(), act.factory, act.directDeleteOutdated)
                && (old(ScalesInGently()) ==>
                      && Careful(View(), s)
                      && Gentle(After(View(), s), act.View(), act.scaleInPolicies, act.hooks, minReadySeconds, now))
      ensures err != NoError ==>
                && Fails(View(), old(act.View()), r, act.View(), r)
                && Leaves(old(act.View()), act.View(), act.directDeleteOutdated)
      ensures err == ApiFailed <==> act.failures != old(act.failures)
    {
      hide Fleets.Fleet.Names, Named, NameSupply, HeadInvariant, Moves, Decide, IsChoice, Fails, Gentle, Careful, After;
      hide Actor.PoliciesWellBehaved, Descends, Leaves, Instance.IsReady, Instance.IsUpToDate, ScaledInUpdate;
      ghost var gone;
      ghost var f := act.View();
      HeadIsNamed(View(), f, r, minReadySeconds, now);
      SomethingToChoose(View(), f, r, minReadySeconds, now);
      unavailable, err, gone := act.ScaleInUpdate();
      s := Step(ScaleInUpdate, unavailable);
      if err == NoError {
        ChosenIsHeld(act.scaleInPolicies(old(act.hooks)), f.update, gone);
        ScaleInUpdateSucceeds(View(), f, r, gone, act.directDeleteOutdated, act.factory, act.scaleInPolicies,
                       old(act.hooks), act.used, minReadySeconds, now);
      } else {
        FailedQuietly(View(), f, r, act.View(), minReadySeconds, now);
      }
    }

    method StepScaleInUpdate(ghost r: set<string>) returns (unavailable: bool, err: Error, ghost s: Step)
      requires AtHead(r) && act.PoliciesWellBehaved()
      requires !View().Converged() && Decide(View()) == Act(ScaleInUpdate)
      modifies this`update, this`unavailableUpdate, act
      ensures err == NoError || err == ApiFailed
      ensures err == NoError ==>
                && act.Supplied() && s == Step(ScaleInUpdate, unavailable)
                && Moves(old(View()), old(act.View()), r, s, View(), act.View(), r, minReadySeconds, now)
                && Descends(false, old(act.View()), act.View(), act.factory, act.directDeleteOutdated)
                && (old(ScalesInGently()) ==> Careful(old(View()), s) && ScalesInGently())
      ensures err != NoError ==>
                && View() == old(View()) && Fails(old(View()), old(act.View()), r, act.View(), r)
                && Leaves(old(act.View()), act.View(), act.directDeleteOutdated)
      ensures err == ApiFailed <==> act.failures != old(act.failures)
    {
      hide HeadInvariant, Moves, Decide, Fails, Gentle, Careful, Actor.Supplied, Actor.PoliciesWellBehaved;
      hide Descends, Leaves;
      unavailable, err, s := CallScaleInUpdate(r);
      if err != NoError {
        return;
      }
      update := update - 1;
      if unavailable {
        unavailableUpdate := unavailableUpdate - 1;
      }
    }

    /** Has the actor set an outdated instance aside; the counters are yet to follow. */
    method CallScaleInOutdated(ghost r: set<string>) returns (unavailable: bool, err: Error, ghost s: Step)
      requires AtHead(r) && act.PoliciesWellBehaved()
      requires !View().Converged() && Decide(View()) == Act(ScaleInOutdated)
      modifies act
      ensures (err == NoError || err == ApiFailed) && s == Step(ScaleInOutdated, unavailable)
      ensures err == NoError ==>
                && act.Supplied()
                && Moves(View(), old(act.View()), r, s, After(View(), s), act.View(), r, minReadySeconds, now)
                && Descends(false, old(act.View()), act.View(), act.factory, act.directDeleteOutdated)
                && (old(ScalesInGently()) ==>
                      && Careful(View(), s)
                      && Gentle(After(View(), s), act.View(), act.scaleInPolicies, act.hooks, minReadySeconds, now))
      ensures err != NoError ==>
                && Fails(View(), old(act.View()), r, act.View(), r)
                && Leaves(old(act.View()), act.View(), act.directDeleteOutdated)
      ensures err == ApiFailed <==> act.failures != old(act.failures)
    {
      hide Fleets.Fleet.Names, Named, NameSupply, HeadInvariant, Moves, Decide, IsChoice, Fails, Gentle, Careful, After;
      hide Actor.PoliciesWellBehaved, Descends, Leaves, Instance.IsNotRunning, SetAside;
      ghost var gone;
      ghost var f := act.View();
      HeadIsNamed(View(), f, r, minReadySeconds, now);
      SomethingToChoose(View(), f, r, minReadySeconds, now);
      unavailable, err, gone := act.ScaleInOutdated();
      s := Step(ScaleInOutdated, unavailable);
      if err == NoError {
        ChosenIsHeld(act.scaleInPolicies(old(act.hooks)), f.outdated, gone);
        ScaleInOutdatedSucceeds(View(), f, r, gone, act.directDeleteOutdated, act.factory, act.scaleInPolicies,
                       old(act.hooks), act.used, minReadySeconds, now);
      } else {
        FailedQuietly(View(), f, r, act.View(), minReadySeconds, now);
      }
    }

    method StepScaleInOutdated(ghost r: set<string>) returns (unavailable: bool, err: Error, ghost s: Step)
      requires AtHead(r) && act.PoliciesWellBehaved()
      requires !View().Converged() && Decide(View()) == Act(ScaleInOutdated)
      modifies this`outdated, this`unavailableOutdated, act
      ensures err == NoError || err == ApiFailed
      ensures err == NoError ==>
                && act.Supplied() && s == Step(ScaleInOutdated, unavailable)
                && Moves(old(View()), old(act.View()), r, s, View(), act.View(), r, minReadySeconds, now)
                && Descends(false, old(act.View()), act.View(), act.factory, act.directDeleteOutdated)
                && (old(ScalesInGently()) ==> Careful(old(View()), s) && ScalesInGently())
      ensures err != NoError ==>
                && View() == old(View()) && Fails(old(View()), old(act.View()), r, act.View(), r)
                && Leaves(old(act.View()), act.View(), act.directDeleteOutdated)
      ensures err == ApiFailed <==> act.failures != old(act.failures)
    {
      hide HeadInvariant, Moves, Decide, Fails, Gentle, Careful, Actor.Supplied, Actor.PoliciesWellBehaved;
      hide Descends, Leaves;
      unavailable, err, s := CallScaleInOutdated(r);
      if err != NoError {
        return;
      }
      outdated := outdated - 1;
      if unavailable {
        unavailableOutdated := unavailableOutdated - 1;
      }
    }

    /** One pass of the loop: at most one actor call, and whether the loop waits afterwards. */
    method Pass(ghost r: set<string>) returns (wait: bool, err: Error, ghost s: Step, ghost r': set<string>)
      requires AtHead(r) && act.PoliciesWellBehaved() && !View().Converged()
      modifies this, act
      ensures err != NothingToChoose
      ensures err == WantedUnavailable ==> !act.noInPlaceUpdate && !UpdatesStopped()
      ensures r' != r ==> act.noInPlaceUpdate && !UpdatesStopped()
      ensures err == NoError && Decide(old(View())).Wait? ==>
                && wait && r' == r && AtHead(r) && View() == old(View()) && act.View() == old(act.View())
                && update + outdated - unavailableUpdate - unavailableOutdated <= desired - maxUnavailable
      ensures err == NoError && Decide(old(View())).Act? ==>
                && act.Supplied() && wait == Stops(old(View()), s)
                && (wait ==> View().Available() <= desired - maxUnavailable)
                && Moves(old(View()), old(act.View()), r, s, View(), act.View(), r', minReadySeconds, now)
                && Descends(Adds(s.call), old(act.View()), act.View(), act.factory, act.directDeleteOutdated)
                && (old(ScalesInGently()) ==> Careful(old(View()), s) && ScalesInGently())
      ensures err != NoError ==>
                && View() == old(View()) && Fails(old(View()), old(act.View()), r, act.View(), r')
                && Leaves(old(act.View()), act.View(), act.directDeleteOutdated)
      ensures err == ApiFailed <==> act.failures != old(act.failures)
    {
      hide HeadInvariant, Moves, Fails, PicksStopped, Actor.Supplied, Actor.PoliciesWellBehaved, Gentle, Careful;
      hide Descends, Leaves;
      hide Executor.UpdatesStopped;
      var actual := update + outdated;
      var available := actual - unavailableUpdate - unavailableOutdated;
      var maximum := desired + Min(maxSurge, outdated);
      var minimum := desired - maxUnavailable;
      wait := false;
      s, r' := Step(ScaleOut, false), r;
      if actual < maximum {
        err, s := StepScaleOut(r);
      } else if actual == maximum {
        if update < desired {
          if unavailableOutdated > 0 {
            err, s, r' := StepUpdate(true, r);
          } else {
            if available <= minimum {
              return true, NoError, s, r;
            }
            err, s, r' := StepUpdate(false, r);
          }
        } else {
          if available <= minimum && unavailableUpdate > 0 {
            return true, NoError, s, r;
          }
          var unavailable;
          unavailable, err, s := StepScaleInOutdated(r);
        }
      } else {
        var unavailable;
        if update > desired {
          unavailable, err, s := StepScaleInUpdate(r);
        } else {
          unavailable, err, s := StepScaleInOutdated(r);
        }
        if err != NoError {
          return;
        }
        var checkAvail := false;
        if !unavailable {
          available := available - 1;
          checkAvail := true;
        }
        MovesIsAfter(old(View()), old(act.View()), r, s, View(), act.View(), r, minReadySeconds, now);
        wait := checkAvail && available <= minimum;
      }
    }

    /** What is known along the way: the run and the service so far, and what became of the instances. */
    ghost predicate Along(run: Run, service: seq<int>, c0: Counters, f0: Fleet, recreated: set<string>)
      reads this, act
    {
      && AtHead(recreated)
      && Recorded(run, service, c0, f0, View(), act.View(), recreated, minReadySeconds, now)
      && Lineage(View().Over(), f0, act.View(), act.factory, act.directDeleteOutdated)
      && (recreated != {} ==> act.noInPlaceUpdate && !UpdatesStopped())
    }

    /** The loop up to its end: an error, a reason to wait, or the goal. `run` is the run of the counters,
        `service` the number of instances in service at each of its loop heads, and `recreated` the running
        instances that were taken away where a stopped one was wanted. */
    method Loop()
      returns (wait: bool, err: Error, ghost run: Run, ghost service: seq<int>, ghost recreated: set<string>)
      requires AtHead({}) && act.PoliciesWellBehaved() && act.removed == {}
      modifies this, act
      ensures IsRun(run) && First(run) == old(View()) && Last(run) == View()
      ensures err != NothingToChoose
      ensures err == WantedUnavailable ==> !act.noInPlaceUpdate && !UpdatesStopped()
      ensures recreated != {} ==> act.noInPlaceUpdate && !UpdatesStopped()
      ensures old(ScalesInGently()) ==> CarefulRun(run)
      ensures service != [] && service[0] == old(act.View().InService(minReadySeconds, now))
      ensures KeepsService(run, service, old(View()), old(act.View()), recreated)
      ensures err == NoError ==>
                && Along(run, service, old(View()), old(act.View()), recreated)
                && Finished(run) && (if wait then !CleansUp(run) else Open(run) && View().Converged())
      ensures err != NoError ==>
                && act.removed !! act.offlined && act.removed <= old(act.update.Keys) + recreated
                && DeletesDrained(old(act.View()), act.removed, act.directDeleteOutdated)
      ensures err == ApiFailed <==> act.failures != old(act.failures)
    {
      hide HeadInvariant, Moves, Actor.Supplied, Fleets.Fleet.InService, Fails, PicksStopped, Descends, Leaves, Lineage;
      hide Fleets.Fleet.Sound, Decide, Stops, After, Legal, Recorded, Actor.PoliciesWellBehaved, KeepsService, IsRun;
      hide CarefulRun, Gentle, Careful, Executor.UpdatesStopped, Executor.ScalesInGently, Extended, Conserves;
      hide DeletesDrained, Executor.Adds;
      ghost var c0, f0 := View(), act.View();
      run, service, recreated := Run([c0], []), [f0.InService(minReadySeconds, now)], {};
      RecordStart(c0, f0, minReadySeconds, now);
      LineageStart(c0.Over(), f0, act.factory, act.directDeleteOutdated);
      ghost var gentle := ScalesInGently();
      while update != desired || outdated != 0
        invariant Along(run, service, c0, f0, recreated)
        invariant IsRun(run) && Open(run)
        invariant gentle ==> ScalesInGently() && CarefulRun(run)
        invariant act.failures == old(act.failures)
        decreases View().Distance()
      {
        ghost var c, f, r, s := View(), act.View(), recreated, Step(ScaleOut, false);
        wait, err, s, recreated := Pass(r);
        if err != NoError {
          FailedPass(run, service, c0, f0, c, f, r, act.View(), recreated, minReadySeconds, now);
          RecordedMeans(run, service, c0, f0, c, f, r, minReadySeconds, now);
          LineageFails(c, f0, f, r, act.View(), recreated, act.factory, act.directDeleteOutdated, minReadySeconds, now);
          return;
        }
        if Decide(c).Act? {
          RecordStep(run, service, c0, f0, c, f, r, s, View(), act.View(), recreated, minReadySeconds, now);
          NextHead(c, f, r, s, View(), act.View(), recreated, minReadySeconds, now);
          LineageStep(c, f0, f, r, s, View(), act.View(), recreated, act.factory, act.directDeleteOutdated,
                      minReadySeconds, now);
          ghost var before, recorded := run, service;
          run, service := Extended(run, s, View()), service + [act.View().InService(minReadySeconds, now)];
          RecordedMeans(run, service, c0, f0, View(), act.View(), recreated, minReadySeconds, now);
          if gentle { CarefulExtended(before, recorded, c0, f0, c, f, r, s, View(), minReadySeconds, now); }
        }
        if wait {
          RecordedMeans(run, service, c0, f0, View(), act.View(), recreated, minReadySeconds, now);
          return;
        }
      }
      RecordedMeans(run, service, c0, f0, View(), act.View(), recreated, minReadySeconds, now);
      wait, err := false, NoError;
    }

    /** The loop, and the cleanup at its goal. */
    method Do() returns (wait: bool, err: Error, ghost run: Run, ghost service: seq<int>, ghost recreated: set<string>)
      requires AtHead({}) && act.PoliciesWellBehaved() && act.removed == {} && act.offlined == {}
      modifies this, act
      ensures IsRun(run) && First(run) == old(View()) && Last(run) == View()
      ensures err == NoError ==> Finished(run) && (wait <==> !CleansUp(run))
      // It waits only for availability above the minimum or for updated instances, and is else done.
      ensures err == NoError && wait ==>
                || update + outdated - unavailableUpdate - unavailableOutdated <= desired - maxUnavailable
                || (update == desired && outdated == 0 && unavailableUpdate > 0)
      ensures err == NoError && !wait ==> update == desired && outdated == 0 && unavailableUpdate <= 0
      ensures err == NoError ==> View().update == |act.update| && View().outdated == |act.outdated|
      ensures err != NothingToChoose
      ensures err == WantedUnavailable ==> !act.noInPlaceUpdate && !UpdatesStopped()
      ensures service != [] && service[0] == old(act.View().InService(minReadySeconds, now))
      ensures KeepsService(run, service, old(View()), old(act.View()), recreated)
      ensures old(ScalesInGently()) ==> CarefulRun(run)
      ensures recreated != {} ==> act.noInPlaceUpdate && !UpdatesStopped()
      // Nothing marked offline by this call is deleted by it; surplus updated and recreated
      // instances aside nothing is deleted before the goal is reached; and nothing is forgotten.
      ensures act.removed !! act.offlined
      ensures act.removed <= old(act.update.Keys) + recreated || CleansUp(run)
      ensures err == NoError ==> Conserves(old(act.View()), act.View())
      // At the goal everything that awaited deletion is deleted, or told to drain.
      ensures err == NoError && !wait ==>
                act.deleted.Keys <= act.removed + act.offlined
                && old(act.deleted.Keys) <= act.removed + act.offlined
      // No store that has to drain is deleted, unless it is outdated and those are to be deleted directly;
      // and what was not updated before is as the factory makes it.
      ensures DeletesDrained(old(act.View()), act.removed, act.directDeleteOutdated)
      ensures err == NoError ==>
                forall n | n in act.update ::
                  (n in old(act.update) && act.update[n] == old(act.update)[n]) || MadeBy(act.factory, act.update[n])
      ensures err == ApiFailed <==> act.failures != old(act.failures)
    {
      hide HeadInvariant, Actor.Supplied, Conserves, Fleets.Fleet.InService, PicksStopped, Drained, Lineage, MadeBy;
      hide Fleets.Fleet.Sound, Decide, Recorded, Actor.PoliciesWellBehaved, KeepsService, IsRun, Finished, Open;
      hide CarefulRun, Gentle, Executor.UpdatesStopped, Executor.ScalesInGently, DeletesDrained;
      ghost var c0, f0 := View(), act.View();
      wait, err, run, service, recreated := Loop();
      if err != NoError {
        return;
      }
      ghost var f := act.View();
      RecordedMeans(run, service, c0, f0, View(), f, recreated, minReadySeconds, now);
      HeadIsDisjoint(View(), f, recreated, minReadySeconds, now);
      FinishedMeans(run);
      LineageMeans(View().Over(), f0, f, act.factory, act.directDeleteOutdated);
      if wait {
        return;
      }
      CleansUpExactly(run);
      if unavailableUpdate > 0 {
        wait := true;
        return;
      }
      ghost var done;
      err, done := act.Cleanup();
      CleanupIsSafe(f, done, act.directDeleteOutdated);
      CleanupConserves(f0, f, act.View(), done, act.directDeleteOutdated);
      CleanupDeletes(View().Over(), f0, f, done, act.View(), act.factory, act.directDeleteOutdated);
    }
  }

  // ---------------------------------------------------------------- small steps

  lemma CarefulExtended(run: Run, service: seq<int>, c0: Counters, f0: Fleet, c: Counters, f: Fleet, r: set<string>,
                        s: Step, c': Counters, min: int, now: int)
    requires Recorded(run, service, c0, f0, c, f, r, min, now) && IsRun(run) && CarefulRun(run)
    requires Careful(c, s) && IsRun(Extended(run, s, c'))
    ensures CarefulRun(Extended(run, s, c'))
  {
    hide Careful, Legal, After, Stops, Fleets.Fleet.InService, FleetRecorded;
    var longer := Extended(run, s, c');
    forall i | 0 <= i < |longer.steps| ensures Careful(longer.heads[i], longer.steps[i]) {
      if i < |run.steps| { assert longer.heads[i] == run.heads[i] && longer.steps[i] == run.steps[i]; }
    }
  }

  lemma ScaleOutSucceeds(c: Counters, f: Fleet, r: set<string>, o: Instance, factory: nat -> Instance, direct: bool,
                         before: set<string>, after: set<string>, min: int, now: int)
    requires HeadInvariant(c, f, r, min, now) && !c.Converged() && Decide(c) == Act(ScaleOut) && MadeBy(factory, o)
    requires f.Names() + f.removed <= before <= after
    requires o.name in f.beingOffline || (o.name in after && o.name !in before)
    ensures var s := Step(ScaleOut, false);
            var f' := if o.name in f.beingOffline then Revived(f, o) else Added(f, o);
            && Moves(c, f, r, s, After(c, s), f', r, min, now) && f'.Names() + f'.removed <= after
            && Descends(true, f, f', factory, direct)
  {
    hide HeadInvariant, Moves, Decide, Descends, MadeBy;
    ScaleOutMoves(c, f, r, o, min, now);
    AddedDescends(f, o, factory, direct);
  }

  lemma ScaleInOutdatedSucceeds(c: Counters, f: Fleet, r: set<string>, gone: Instance, direct: bool,
                                factory: nat -> Instance, ps: Policies, h: seq<Hook>, used: set<string>,
                                min: int, now: int)
    requires HeadInvariant(c, f, r, min, now) && !c.Converged() && Decide(c) == Act(ScaleInOutdated)
    requires IsChoice(ps(h), f.outdated, gone) && f.Names() + f.removed <= used
    ensures var s, f' := Step(ScaleInOutdated, gone.IsNotRunning()), SetAside(f, gone);
            && Moves(c, f, r, s, After(c, s), f', r, min, now) && f'.Names() + f'.removed <= used
            && Descends(false, f, f', factory, direct)
            && (Gentle(c, f, ps, h, min, now) ==>
                  Careful(c, s) && Gentle(After(c, s), f', ps, h + [DeleteHook(gone.name)], min, now))
  {
    hide HeadInvariant, Moves, Decide, Gentle, Careful, Instance.IsNotRunning, IsChoice, Descends;
    ChosenIsHeld(ps(h), f.outdated, gone);
    ScaleInOutdatedMoves(c, f, r, gone, min, now);
    SetAsideNames(f, gone);
    SetAsideDescends(f, gone, factory, direct);
    if Gentle(c, f, ps, h, min, now) { GentleScaleInOutdated(c, f, r, ps, h, gone, min, now); }
  }

  lemma HeldIsUsed(f: Fleet, n: string, used: set<string>)
    requires f.Names() + f.removed <= used && (n in f.update || n in f.outdated)
    ensures n in used
  {
  }

  lemma FreshOrOffline(f: Fleet, gone: Instance, n: string, direct: bool, used: set<string>)
    requires f.Names() + f.removed <= used && (n in ScaledInOutdated(f, gone, direct).beingOffline || n !in used)
    ensures n in ScaledInOutdated(f, gone, direct).beingOffline || n !in f.Names() + f.removed
  {
  }

  lemma OfflineIsUsed(f: Fleet, gone: Instance, n: string, direct: bool, used: set<string>)
    requires f.Names() + f.removed <= used && gone.name in f.outdated
    ensures n in ScaledInOutdated(f, gone, direct).beingOffline ==> n in used
  {
  }

  /** Counters, sets and names after a successful update of either kind. */
  lemma UpdateSucceeds(c: Counters, f: Fleet, r: set<string>, gone: Instance, o: Instance, unavailable: bool,
                       recreates: bool, factory: nat -> Instance, direct: bool, before: set<string>, after: set<string>,
                       min: int, now: int)
    requires HeadInvariant(c, f, r, min, now) && !c.Converged() && Decide(c) == Act(Update(unavailable))
    requires gone.name in f.outdated && f.outdated[gone.name] == gone && MadeBy(factory, o)
    requires f.Names() + f.removed <= before <= after
    requires recreates ==> unavailable && !gone.IsNotRunning()
    requires recreates ==>
               o.name in ScaledInOutdated(f, gone, direct).beingOffline || (o.name in after && o.name !in before)
    requires !recreates ==> o.name == gone.name && (unavailable ==> gone.IsNotRunning())
    ensures var s := Step(Update(unavailable), false);
            var f' := if recreates then Recreated(f, gone, o, direct) else Replaced(f, gone, o);
            && Moves(c, f, r, s, After(c, s), f', if recreates then r + {gone.name} else r, min, now)
            && f'.Names() + f'.removed <= after && Descends(true, f, f', factory, direct)
  {
    hide Descends, MadeBy;
    hide Fleets.Fleet.Names, HeadInvariant, Moves, Decide, Instance.IsNotRunning, Recreated, ScaledInOutdated, Replaced;
    HeadIsNamed(c, f, r, min, now);
    HeldIsUsed(f, gone.name, before);
    if recreates {
      FreshOrOffline(f, gone, o.name, direct, before);
      RecreateMoves(c, f, r, gone, o, direct, min, now);
      RecreatedIsSound(f, gone, o, direct);
      OfflineIsUsed(f, gone, o.name, direct, before);
      StaysCovered(f, Recreated(f, gone, o, direct), o.name, before, after);
      RecreatedDescends(f, gone, o, factory, direct);
    } else {
      UpdateMoves(c, f, r, gone, o, unavailable, min, now);
      ReplacedNames(f, gone, o);
      StaysCovered(f, Replaced(f, gone, o), gone.name, before, after);
      ReplacedDescends(f, gone, o, factory, direct);
    }
  }

  lemma OverHasNothingTakenBack(c: Counters, f: Fleet, r: set<string>, min: int, now: int)
    requires HeadInvariant(c, f, r, min, now) && Decide(c) == Act(ScaleInUpdate)
    ensures f.offlined <= f.beingOffline.Keys && r == {}
  {
  }

  lemma ScaleInUpdateSucceeds(c: Counters, f: Fleet, r: set<string>, gone: Instance, direct: bool,
                              factory: nat -> Instance, ps: Policies, h: seq<Hook>, used: set<string>,
                              min: int, now: int)
    requires HeadInvariant(c, f, r, min, now) && !c.Converged() && Decide(c) == Act(ScaleInUpdate)
    requires IsChoice(ps(h), f.update, gone) && f.Names() + f.removed <= used
    ensures var s := Step(ScaleInUpdate, !gone.IsReady() || !gone.IsUpToDate());
            var f' := ScaledInUpdate(f, gone, direct);
            && Moves(c, f, r, s, After(c, s), f', r, min, now) && f'.Names() + f'.removed <= used
            && Descends(false, f, f', factory, direct)
            && (Gentle(c, f, ps, h, min, now) ==>
                  Careful(c, s) && Gentle(After(c, s), f', ps, h + [DeleteHook(gone.name)], min, now))
  {
    hide Fleets.Fleet.Names, HeadInvariant, Moves, Decide, Instance.IsReady;
    hide Instance.IsUpToDate, ScaledInUpdate, IsChoice;
    hide Gentle, Careful, Descends;
    ChosenIsHeld(ps(h), f.update, gone);
    ScaledInUpdateDescends(f, gone, factory, direct);
    ScaleInUpdateMoves(c, f, r, gone, direct, min, now);
    OverHasNothingTakenBack(c, f, r, min, now);
    ScaledInUpdateNames(f, gone, direct);
    if Gentle(c, f, ps, h, min, now) { GentleScaleInUpdate(c, f, ps, h, gone, direct, min, now); }
  }

  lemma RecordStart(c: Counters, f: Fleet, min: int, now: int)
    requires HeadInvariant(c, f, {}, min, now) && f.removed == {}
    ensures IsRun(Run([c], [])) && Open(Run([c], [])) && CarefulRun(Run([c], []))
    ensures Recorded(Run([c], []), [f.InService(min, now)], c, f, c, f, {}, min, now)
  {
    TrackingIsSane(c, f, {}, min, now);
  }

  lemma HeadIsDisjoint(c: Counters, f: Fleet, r: set<string>, min: int, now: int)
    requires HeadInvariant(c, f, r, min, now)
    ensures f.Sound() && f.removed !! f.offlined && Named(f.deleted)
    ensures c.update == |f.update| && c.outdated == |f.outdated|
  {
  }

  lemma CleanupConserves(f0: Fleet, f: Fleet, f': Fleet, done: set<string>, direct: bool)
    requires Conserves(f0, f) && Drained(f, done, direct, f')
    ensures Conserves(f0, f')
    ensures f'.update == f.update && f'.outdated == f.outdated
    ensures var draining := Draining(f, done, direct);
            f'.offlined == f.offlined + draining && f'.removed == f.removed + (done - draining)
    ensures f'.deleted == f.deleted && done <= f'.removed + f'.offlined
  {
  }

  lemma CleansUpExactly(run: Run)
    requires IsRun(run) && Open(run) && Last(run).Converged()
    ensures CleansUp(run) <==> Last(run).unavailableUpdate <= 0
  {
  }

  lemma LineageStart(over: bool, f: Fleet, factory: nat -> Instance, direct: bool)
    ensures Lineage(over, f, f, factory, direct)
  {
  }

  lemma LineageMeans(over: bool, f0: Fleet, f: Fleet, factory: nat -> Instance, direct: bool)
    requires Lineage(over, f0, f, factory, direct)
    ensures DeletesDrained(f0, f.removed, direct) && f0.deleted.Keys <= f.deleted.Keys
    ensures forall n | n in f.update ::
              (n in f0.update && f.update[n] == f0.update[n]) || MadeBy(factory, f.update[n])
  {
    hide MadeBy, HasToDrain;
  }

  lemma LineageStep(c: Counters, f0: Fleet, f: Fleet, r: set<string>, s: Step, c': Counters, f': Fleet, r': set<string>,
                    factory: nat -> Instance, direct: bool, min: int, now: int)
    requires HeadInvariant(c, f, r, min, now) && Moves(c, f, r, s, c', f', r', min, now)
    requires Lineage(c.Over(), f0, f, factory, direct) && Descends(Executor.Adds(s.call), f, f', factory, direct)
    ensures Lineage(c'.Over(), f0, f', factory, direct)
  {
    hide Lineage, Descends, Conserves, Idle, Stopped, Instance.IsNotRunning;
    TrackingIsSane(c, f, r, min, now);
    StepKeepsSide(c, s);
    LineageGrows(c.Over(), f0, f, Executor.Adds(s.call), c'.Over(), f', factory, direct);
  }

  lemma LineageFails(c: Counters, f0: Fleet, f: Fleet, r: set<string>, f': Fleet, r': set<string>,
                     factory: nat -> Instance, direct: bool, min: int, now: int)
    requires HeadInvariant(c, f, r, min, now) && Fails(c, f, r, f', r')
    requires Lineage(c.Over(), f0, f, factory, direct) && Leaves(f, f', direct)
    ensures DeletesDrained(f0, f'.removed, direct)
  {
    hide Lineage, Leaves, DeletesDrained, Idle, Stopped, Instance.IsNotRunning;
    LineageDeletes(c.Over(), f0, f, f', factory, direct);
  }
}
