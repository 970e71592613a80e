/** The actor that carries out the executor's calls. API calls succeed or fail as the environment
    pleases; each method says what a successful call does to the fleet. */
module Actors {
  import opened Wrappers
  import opened Instances
  import opened Selection
  import opened Fleets
  import opened Lineages

  datatype Error = NoError | ApiFailed | NothingToChoose | WantedUnavailable

  datatype Action =
    | DidScaleOut | DidScaleInUpdate | DidScaleInOutdated | DidUpdate
    | DidDeferDelete | DidCleanup | DidCancelOffline

  /** Calls of the hooks that group controllers install. */
  datatype Hook = AddHook(o: Instance) | UpdateHook(o: Instance, prior: Instance) | DeleteHook(name: string)

  /** Preference policies that may change with the hooks, as those that spread a topology do. */
  type Policies = seq<Hook> -> seq<Policy>

  /** The names that the hooks were told are gone. */
  function Gone(h: seq<Hook>): set<string>
  {
    if h == [] then {}
    else Gone(h[..|h| - 1]) + if h[|h| - 1].DeleteHook? then {h[|h| - 1].name} else {}
  }

  lemma GoneToo(h: seq<Hook>, n: string)
    ensures Gone(h + [DeleteHook(n)]) == Gone(h) + {n}
  {
    assert (h + [DeleteHook(n)])[..|h|] == h;
  }

  /** Names still to come from the factory are unused and never repeat. */
  ghost predicate NameSupply(factory: nat -> Instance, made: nat, used: set<string>)
  {
    && (forall k | made <= k :: factory(k).name !in used)
    && (forall k, l | made <= k < l :: factory(k).name != factory(l).name)
  }

  class Actor {
    const noInPlaceUpdate: bool
    const directDeleteOutdated: bool
    const cost: Instance -> int
    const updatePolicies: Policies
    const scaleInPolicies: Policies
    const cancelOfflineFilters: seq<Filter>
    // What the factory, adoption and the add hooks produce, in order; `made` were produced so far.
    const factory: nat -> Instance
    var made: nat

    var update: State
    var outdated: State
    var deleted: State
    var beingOffline: State
    var actions: seq<Action>
    var hooks: seq<Hook>

    // The effect of this actor on the cluster: names marked offline and names deleted.
    ghost var offlined: set<string>
    ghost var removed: set<string>
    // How many API calls have failed.
    ghost var failures: nat
    // Every name this actor has come across.
    ghost var used: set<string>

    constructor (update: State, outdated: State, beingOffline: State, deleted: State,
                 noInPlaceUpdate: bool, directDeleteOutdated: bool, cost: Instance -> int,
                 updatePolicies: Policies, scaleInPolicies: Policies, cancelOfflineFilters: seq<Filter>,
                 factory: nat -> Instance)
      ensures View() == Fleet(update, outdated, deleted, beingOffline, {}, {})
      ensures this.noInPlaceUpdate == noInPlaceUpdate && this.directDeleteOutdated == directDeleteOutdated
      ensures this.cost == cost && this.updatePolicies == updatePolicies && this.scaleInPolicies == scaleInPolicies
      ensures this.cancelOfflineFilters == cancelOfflineFilters && this.factory == factory
      ensures made == 0 && actions == [] && hooks == [] && used == View().Names()
    {
      this.update, this.outdated, this.beingOffline, this.deleted := update, outdated, beingOffline, deleted;
      this.noInPlaceUpdate, this.directDeleteOutdated, this.cost := noInPlaceUpdate, directDeleteOutdated, cost;
      this.updatePolicies, this.scaleInPolicies := updatePolicies, scaleInPolicies;
      this.cancelOfflineFilters, this.factory := cancelOfflineFilters, factory;
      made, actions, hooks, offlined, removed, failures := 0, [], [], {}, {}, 0;
      used := update.Keys + outdated.Keys + deleted.Keys + beingOffline.Keys;
    }

    ghost function View(): Fleet
      reads this
    {
      Fleet(update, outdated, deleted, beingOffline, offlined, removed)
    }

    /** Names still to come are unused, and all names the actor knows are used. */
    ghost predicate Supplied()
      reads this
    {
      NameSupply(factory, made, used) && View().Names() + removed <= used
    }

    ghost predicate PoliciesWellBehaved()
    {
      && (forall h, p | p in updatePolicies(h) :: p.WellBehaved())
      && (forall h, p | p in scaleInPolicies(h) :: p.WellBehaved())
    }

    /** An API call. */
    method CallApi() returns (ok: bool)
      modifies this`failures
      ensures failures == old(failures) + if ok then 0 else 1
    {
      ok := *;
      failures := if ok then failures else failures + 1;
    }

    method MakeNew() returns (obj: Instance)
      requires NameSupply(factory, made, used)
      modifies this`made, this`used
      ensures NameSupply(factory, made, used)
      ensures used == old(used) + {obj.name} && obj.name !in old(used) && MadeBy(factory, obj)
    {
      obj := factory(made);
      made, used := made + 1, used + {obj.name};
    }

    /** Applies a renewed object for `prior`. */
    method UpdateOutdated(prior: Instance) returns (err: Error, ghost o: Instance)
      requires NameSupply(factory, made, used)
      modifies this`update, this`made, this`used, this`hooks, this`failures
      ensures NameSupply(factory, made, used) && old(used) <= used
      ensures err == NoError || err == ApiFailed
      ensures hooks == old(hooks) + [UpdateHook(o, prior)]
      ensures o.name == prior.name && o.topology == prior.topology && o.resourceVersion == prior.resourceVersion
      ensures MadeBy(factory, o)
      ensures update == if err == NoError then old(update)[o.name := o] else old(update)
      ensures err == ApiFailed <==> failures != old(failures)
    {
      var obj := MakeNew();
      obj := Renewed(obj, prior);
      hooks := hooks + [UpdateHook(obj, prior)];
      o := obj;
      var ok := CallApi();
      if !ok {
        return ApiFailed, o;
      }
      update := update[obj.name := obj];
      return NoError, o;
    }

    method ChooseToCancelOffline() returns (pick: Option<Instance>)
      requires Named(beingOffline)
      ensures pick.Some? <==> AnyEligible(cancelOfflineFilters, beingOffline)
      ensures pick.Some? ==>
                IsFilteredChoice(cancelOfflineFilters, CancelOfflinePolicies(cost), beingOffline, pick.value)
    {
      hide Named, AnyEligible;
      var ps := CancelOfflinePolicies(cost);
      NoneEligible(cancelOfflineFilters, beingOffline);
      pick := Choose(cancelOfflineFilters, ps, List(beingOffline));
      if pick.Some? {
        ChosenIsListed(cancelOfflineFilters, ps, beingOffline, pick.value);
      }
    }

    method CancelOneOfflining(obj: Instance) returns (err: Error, ghost o: Instance)
      requires NameSupply(factory, made, used)
      modifies this`update, this`beingOffline, this`made, this`used, this`actions, this`hooks, this`failures
      ensures NameSupply(factory, made, used) && old(used) <= used
      ensures err == NoError || err == ApiFailed
      ensures o.name == obj.name && o.topology == obj.topology && o.resourceVersion == obj.resourceVersion
      ensures MadeBy(factory, o)
      ensures err == NoError ==> View() == Revived(old(View()), o)
      ensures actions == old(actions) + [DidCancelOffline] && hooks == old(hooks) + [UpdateHook(o, obj)]
      ensures err == ApiFailed <==> failures != old(failures)
    {
      beingOffline := beingOffline - {obj.name};
      actions := actions + [DidCancelOffline];
      err, o := UpdateOutdated(obj);
    }

    /** Takes back the selector's choice among the instances that are going offline and may be taken
        back; if there is none, adds a new or adopted one. */
    method ScaleOut() returns (err: Error, ghost o: Instance)
      requires NameSupply(factory, made, used) && Named(beingOffline) && beingOffline.Keys <= used
      modifies this`update, this`beingOffline, this`made, this`used, this`actions, this`hooks, this`failures
      ensures NameSupply(factory, made, used) && old(used) <= used
      ensures err == NoError || err == ApiFailed
      ensures o.name in old(beingOffline) || (o.name in used && o.name !in old(used))
      ensures MadeBy(factory, o)
      ensures o.name in old(beingOffline) <==> AnyEligible(cancelOfflineFilters, old(beingOffline))
      ensures o.name in old(beingOffline) ==>
                var prior := old(beingOffline)[o.name];
                && IsFilteredChoice(cancelOfflineFilters, CancelOfflinePolicies(cost), old(beingOffline), prior)
                && o.topology == prior.topology && o.resourceVersion == prior.resourceVersion
      ensures actions == old(actions) + [if o.name in old(beingOffline) then DidCancelOffline else DidScaleOut]
      ensures hooks == old(hooks) + [if o.name in old(beingOffline) then UpdateHook(o, old(beingOffline)[o.name])
                                     else AddHook(o)]
      ensures err == NoError ==>
                View() == if o.name in old(beingOffline) then Revived(old(View()), o) else Added(old(View()), o)
      ensures err == ApiFailed <==> failures != old(failures)
    {
      hide Named, MadeBy, NameSupply, IsFilteredChoice, AnyEligible, Revived, Added;
      NoneToTakeBack(cancelOfflineFilters, beingOffline);
      if |beingOffline| > 0 {
        var pick := ChooseToCancelOffline();
        if pick.Some? {
          err, o := CancelOneOfflining(pick.value);
          return;
        }
      }
      err, o := Create();
    }

    /** Adds a new or adopted instance. */
    method Create() returns (err: Error, ghost o: Instance)
      requires NameSupply(factory, made, used)
      modifies this`update, this`made, this`used, this`actions, this`hooks, this`failures
      ensures NameSupply(factory, made, used) && used == old(used) + {o.name} && o.name !in old(used)
      ensures (err == NoError || err == ApiFailed) && (err == ApiFailed <==> failures != old(failures))
      ensures MadeBy(factory, o)
      ensures actions == old(actions) + [DidScaleOut] && hooks == old(hooks) + [AddHook(o)]
      ensures err == NoError ==> View() == Added(old(View()), o)
    {
      hide NameSupply, MadeBy;
      var obj := MakeNew();
      hooks := hooks + [AddHook(obj)];
      o := obj;
      actions := actions + [DidScaleOut];
      var ok := CallApi();
      if !ok {
        return ApiFailed, o;
      }
      update := update[obj.name := obj];
      return NoError, o;
    }

    method ChooseFrom(ps: seq<Policy>, m: State) returns (pick: Option<Instance>)
      requires Named(m) && forall p | p in ps :: p.WellBehaved()
      ensures pick.None? <==> m == map[]
      ensures pick.Some? ==> IsChoice(ps, m, pick.value)
    {
      pick := Choose([], ps, List(m));
      NoFilter(List(m));
      ListEmpty(m);
      if pick.Some? {
        ChosenIsListed([], ps, m, pick.value);
      }
    }

    /** Marks the instance offline if it has to drain first, else deletes it. */
    method DeleteInstance(obj: Instance, isOutdated: bool) returns (err: Error)
      modifies this`beingOffline, this`offlined, this`removed, this`failures
      ensures err == NoError || err == ApiFailed
      ensures View() == if err == NoError then TakenAway(old(View()), obj, isOutdated, directDeleteOutdated)
                         else old(View())
      ensures err == NoError && HasToDrain(obj) && !(isOutdated && directDeleteOutdated) ==>
                && removed == old(removed) && obj.name in offlined
                && obj.name in beingOffline && beingOffline[obj.name].offline
      ensures err == NoError && (!HasToDrain(obj) || (isOutdated && directDeleteOutdated)) ==>
                removed == old(removed) + {obj.name} && offlined == old(offlined) && beingOffline == old(beingOffline)
      ensures err == ApiFailed <==> failures != old(failures)
    {
      if GoesOffline(obj, isOutdated, directDeleteOutdated) {
        var patched := CallApi();
        if !patched {
          return ApiFailed;
        }
        offlined := offlined + {obj.name};
        beingOffline := beingOffline[obj.name := Offlined(obj)];
        return NoError;
      }
      var ok := CallApi();
      if !ok {
        return ApiFailed;
      }
      removed := removed + {obj.name};
      return NoError;
    }

    method ScaleInUpdate() returns (unavailable: bool, err: Error, ghost gone: Instance)
      requires Named(update) && PoliciesWellBehaved()
      modifies this`update, this`beingOffline, this`offlined, this`removed, this`actions, this`hooks, this`failures
      ensures err == NothingToChoose <==> old(update) == map[]
      ensures err != WantedUnavailable
      ensures err != NoError ==> offlined == old(offlined) && removed == old(removed)
      ensures err == NoError ==>
                && IsChoice(scaleInPolicies(old(hooks)), old(update), gone)
                && View() == ScaledInUpdate(old(View()), gone, directDeleteOutdated)
                && unavailable == (!gone.IsReady() || !gone.IsUpToDate())
                && actions == old(actions) + [DidScaleInUpdate] && hooks == old(hooks) + [DeleteHook(gone.name)]
      ensures err == ApiFailed <==> failures != old(failures)
    {
      hide IsChoice, Named, Policy.WellBehaved;
      var pick := ChooseFrom(scaleInPolicies(hooks), update);
      if pick.None? {
        gone := *;
        return false, NothingToChoose, gone;
      }
      var obj := pick.value;
      gone := obj;
      update := update - {obj.name};
      unavailable := !obj.IsReady() || !obj.IsUpToDate();
      actions := actions + [DidScaleInUpdate];
      err := DeleteInstance(obj, false);
      if err != NoError {
        return;
      }
      hooks := hooks + [DeleteHook(obj.name)];
    }

    /** Takes the given outdated instance away, now or by a later Cleanup. */
    method ScaleInOutdatedNamed(obj: Instance, deferDel: bool) returns (unavailable: bool, err: Error)
      modifies this`outdated, this`deleted, this`beingOffline, this`offlined, this`removed
      modifies this`actions, this`hooks, this`failures
      ensures err == NoError || err == ApiFailed
      ensures unavailable == obj.IsNotRunning()
      ensures actions == old(actions) + [if deferDel then DidDeferDelete else DidScaleInOutdated]
      ensures hooks == if err == NoError then old(hooks) + [DeleteHook(obj.name)] else old(hooks)
      ensures err != NoError ==> offlined == old(offlined) && removed == old(removed)
      ensures err == NoError ==>
                View() == if deferDel then SetAside(old(View()), obj)
                           else ScaledInOutdated(old(View()), obj, directDeleteOutdated)
      ensures err == ApiFailed <==> failures != old(failures)
    {
      outdated := outdated - {obj.name};
      unavailable := obj.IsNotRunning();
      if deferDel {
        actions := actions + [DidDeferDelete];
        var ok := CallApi();
        if !ok {
          return unavailable, ApiFailed;
        }
        deleted := deleted[obj.name := obj];
        err := NoError;
      } else {
        actions := actions + [DidScaleInOutdated];
        err := DeleteInstance(obj, true);
        if err != NoError {
          return;
        }
      }
      hooks := hooks + [DeleteHook(obj.name)];
    }

    method ScaleInOutdated() returns (unavailable: bool, err: Error, ghost gone: Instance)
      requires Named(outdated) && PoliciesWellBehaved()
      modifies this`outdated, this`deleted, this`beingOffline, this`offlined, this`removed
      modifies this`actions, this`hooks, this`failures
      ensures err == NothingToChoose <==> old(outdated) == map[]
      ensures err != WantedUnavailable
      ensures err != NoError ==> offlined == old(offlined) && removed == old(removed)
      ensures err == NoError ==>
                && IsChoice(scaleInPolicies(old(hooks)), old(outdated), gone)
                && View() == SetAside(old(View()), gone)
                && unavailable == gone.IsNotRunning() && actions == old(actions) + [DidDeferDelete]
                && hooks == old(hooks) + [DeleteHook(gone.name)]
      ensures err == ApiFailed <==> failures != old(failures)
    {
      hide IsChoice, Named, Policy.WellBehaved;
      var pick := ChooseFrom(scaleInPolicies(hooks), outdated);
      if pick.None? {
        gone := *;
        return false, NothingToChoose, gone;
      }
      gone := pick.value;
      unavailable, err := ScaleInOutdatedNamed(pick.value, true);
    }

    /** Whether Update replaces the instance by scaling in and out instead of updating it. */
    ghost predicate Recreates(unavailable: bool, gone: Instance)
    {
      noInPlaceUpdate && unavailable && !gone.IsNotRunning()
    }

    /** What a failed replacement did to the cluster: nothing, or its first half. */
    static ghost predicate TakenAtMost(f: Fleet, f': Fleet, gone: Instance, direct: bool)
    {
      || (f'.offlined == f.offlined && f'.removed == f.removed)
      || (&& f'.offlined == ScaledInOutdated(f, gone, direct).offlined
          && f'.removed == ScaledInOutdated(f, gone, direct).removed)
    }

    /** Scales in the chosen outdated instance at once and scales out a new one. */
    method Recreate(chosen: Instance) returns (err: Error, ghost o: Instance)
      requires NameSupply(factory, made, used) && Named(beingOffline)
      requires beingOffline.Keys <= used && chosen.name in used
      modifies this`update, this`outdated, this`deleted, this`beingOffline, this`offlined, this`removed, this`failures
      modifies this`made, this`used, this`actions, this`hooks
      ensures NameSupply(factory, made, used) && old(used) <= used
      ensures err == NoError || err == ApiFailed
      ensures err == NoError ==>
                && (o.name in ScaledInOutdated(old(View()), chosen, directDeleteOutdated).beingOffline
                    || (o.name in used && o.name !in old(used)))
                && View() == Recreated(old(View()), chosen, o, directDeleteOutdated) && MadeBy(factory, o)
      ensures err != NoError ==> TakenAtMost(old(View()), View(), chosen, directDeleteOutdated)
      ensures err == ApiFailed <==> failures != old(failures)
    {
      var _, scaleInErr := ScaleInOutdatedNamed(chosen, false);
      if scaleInErr != NoError {
        return scaleInErr, chosen;
      }
      err, o := ScaleOut();
    }

    method UpdateInPlace(chosen: Instance) returns (err: Error, ghost o: Instance)
      requires NameSupply(factory, made, used)
      modifies this`update, this`outdated, this`made, this`used, this`actions, this`hooks, this`failures
      ensures NameSupply(factory, made, used) && old(used) <= used
      ensures err == NoError || err == ApiFailed
      ensures o.name == chosen.name && o.topology == chosen.topology && o.resourceVersion == chosen.resourceVersion
      ensures MadeBy(factory, o)
      ensures err == NoError ==> View() == Replaced(old(View()), chosen, o)
      ensures actions == old(actions) + [DidUpdate] && hooks == old(hooks) + [UpdateHook(o, chosen)]
      ensures err == ApiFailed <==> failures != old(failures)
    {
      outdated := outdated - {chosen.name};
      actions := actions + [DidUpdate];
      err, o := UpdateOutdated(chosen);
    }

    method Update(unavailable: bool) returns (err: Error, ghost gone: Instance, ghost o: Instance)
      requires NameSupply(factory, made, used) && Named(outdated) && Named(beingOffline)
      requires beingOffline.Keys + outdated.Keys <= used
      requires PoliciesWellBehaved()
      modifies this`update, this`outdated, this`deleted, this`beingOffline, this`offlined, this`removed, this`failures
      modifies this`made, this`used, this`actions, this`hooks
      ensures NameSupply(factory, made, used) && old(used) <= used
      ensures err == NothingToChoose <==> old(outdated) == map[]
      ensures err == NoError ==> MadeBy(factory, o)
      ensures err != NothingToChoose ==> IsChoice(updatePolicies(old(hooks)), old(outdated), gone)
      ensures err == WantedUnavailable <==>
                old(outdated) != map[] && unavailable && !noInPlaceUpdate && !gone.IsNotRunning()
      ensures err != NoError && !Recreates(unavailable, gone) ==>
                offlined == old(offlined) && removed == old(removed)
      ensures err == NoError && !Recreates(unavailable, gone) ==>
                && o.name == gone.name && o.topology == gone.topology && o.resourceVersion == gone.resourceVersion
                && View() == Replaced(old(View()), gone, o)
                && actions == old(actions) + [DidUpdate] && hooks == old(hooks) + [UpdateHook(o, gone)]
                && (unavailable ==> gone.IsNotRunning())
      ensures err == NoError && Recreates(unavailable, gone) ==>
                && (o.name in ScaledInOutdated(old(View()), gone, directDeleteOutdated).beingOffline
                    || (o.name in used && o.name !in old(used)))
                && View() == Recreated(old(View()), gone, o, directDeleteOutdated)
      ensures err != NoError && err != NothingToChoose && Recreates(unavailable, gone) ==>
                TakenAtMost(old(View()), View(), gone, directDeleteOutdated)
      ensures err == ApiFailed <==> failures != old(failures)
    {
      hide Policy.WellBehaved, NameSupply, Named, MadeBy;
      var pick := ChooseFrom(updatePolicies(hooks), outdated);
      if pick.None? {
        gone, o := *, *;
        return NothingToChoose, gone, o;
      }
      var chosen := pick.value;
      gone, o := chosen, chosen;
      if unavailable && !chosen.IsNotRunning() {
        if noInPlaceUpdate {
          err, o := Recreate(chosen);
          return;
        }
        return WantedUnavailable, gone, o;
      }
      err, o := UpdateInPlace(chosen);
    }

    method ListItems(m: State) returns (items: seq<Instance>)
      requires Named(m)
      ensures forall x | x in items :: x.name in m && m[x.name] == x
      ensures forall n | n in m :: m[n] in items
    {
      items := List(m);
      forall x | x in items ensures x.name in m && m[x.name] == x { ListHolds(m, x); }
      forall n | n in m ensures m[n] in items { ListHolds(m, m[n]); }
    }

    /** Deletes, or marks offline, everything that awaits deletion. */
    method Cleanup() returns (err: Error, ghost done: set<string>)
      requires Named(deleted)
      modifies this`beingOffline, this`offlined, this`removed, this`actions, this`failures
      ensures err == NoError || err == ApiFailed
      ensures done <= deleted.Keys && (err == NoError ==> done == deleted.Keys)
      ensures Drained(old(View()), done, directDeleteOutdated, View())
      ensures err == ApiFailed <==> failures != old(failures)
    {
      hide Drained, TakenAway;
      var items := ListItems(deleted);
      done := {};
      ghost var f := View();
      NothingDrains(f, directDeleteOutdated);
      for i := 0 to |items|
        invariant done <= f.deleted.Keys
        invariant forall k | 0 <= k < i :: items[k].name in done
        invariant Drained(f, done, directDeleteOutdated, View()) && failures == old(failures)
      {
        var item := items[i];
        ghost var g := View();
        actions := actions + [DidCleanup];
        err := DeleteInstance(item, true);
        if err != NoError {
          return err, done;
        }
        DrainedMore(f, done, directDeleteOutdated, g, item);
        done := done + {item.name};
      }
      return NoError, done;
    }
  }

  lemma NoneToTakeBack(fs: seq<Filter>, m: State)
    ensures |m| == 0 ==> !AnyEligible(fs, m)
    ensures forall ps, x :: IsFilteredChoice(fs, ps, m, x) ==> x.name in m && m[x.name] == x
  {
    if |m| == 0 { assert m == map[]; }
  }

  lemma NothingDrains(f: Fleet, direct: bool)
    ensures Drained(f, {}, direct, f)
  {
  }

  lemma DrainedMore(f: Fleet, done: set<string>, direct: bool, g: Fleet, item: Instance)
    requires Drained(f, done, direct, g) && item.name in f.deleted && f.deleted[item.name] == item
    ensures Drained(f, done + {item.name}, direct, TakenAway(g, item, true, direct))
  {
    hide Draining, GoesOffline, Offlined;
    DrainingGrows(f, done, item, direct);
    DrainingIsDeleted(f, done, direct);
  }

  lemma DrainingIsDeleted(f: Fleet, done: set<string>, direct: bool)
    ensures Draining(f, done, direct) <= f.deleted.Keys * done
  {
  }

  lemma DrainingGrows(f: Fleet, done: set<string>, item: Instance, direct: bool)
    requires item.name in f.deleted && f.deleted[item.name] == item
    ensures var more := done + {item.name};
            var goes := GoesOffline(item, true, direct);
            && Draining(f, more, direct) == Draining(f, done, direct) + (if goes then {item.name} else {})
            && more - Draining(f, more, direct) ==
               done - Draining(f, done, direct) + (if goes then {} else {item.name})
  {
  }
}
