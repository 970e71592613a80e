/** Where instances come from and how they go: stores drain before they are deleted, and what is updated
    was made by the factory. */
module Lineages {
  import opened Instances
  import opened Fleets

  /** A store that drains before it is deleted: it can go offline, was not told to, and is not drained. */
  predicate HasToDrain(i: Instance)
  {
    i.supportsOffline && !i.offline && !(i.storeOfflined.Some? && i.storeOfflined.value.status == True)
  }

  /** Taking away an instance that has to drain marks it offline, and it is deleted by nobody. Only outdated
      instances are spared that, and only if they are to be deleted directly. */
  lemma DrainsFirst(f: Fleet, gone: Instance, direct: bool)
    requires HasToDrain(gone)
    ensures var g := ScaledInUpdate(f, gone, direct);
            && g.removed == f.removed && gone.name in g.offlined
            && gone.name in g.beingOffline && g.beingOffline[gone.name].offline
            && g.beingOffline[gone.name] ==
               gone.(offline := true, annotations := gone.annotations - {"core.pingcap.com/defer-delete"})
    ensures !direct ==>
              var g := ScaledInOutdated(f, gone, direct);
              && g.removed == f.removed && gone.name in g.offlined
              && gone.name in g.beingOffline && g.beingOffline[gone.name].offline
    ensures direct ==>
              var g := ScaledInOutdated(f, gone, direct);
              g.removed == f.removed + {gone.name} && g.offlined == f.offlined && g.beingOffline == f.beingOffline
  {
  }

  /** Anything else is deleted at once. */
  lemma DrainedIsDeleted(f: Fleet, gone: Instance, direct: bool)
    requires !HasToDrain(gone)
    ensures var g, h := ScaledInUpdate(f, gone, direct), ScaledInOutdated(f, gone, direct);
            && g.removed == h.removed == f.removed + {gone.name}
            && g.offlined == h.offlined == f.offlined && g.beingOffline == h.beingOffline == f.beingOffline
  {
  }

  /** Cleaning up deletes no store that has to drain, unless outdated instances are to be deleted directly. */
  lemma CleanupDrains(f: Fleet, done: set<string>, direct: bool, g: Fleet, n: string)
    requires Drained(f, done, direct, g) && n in done && n in f.deleted
    ensures !direct && HasToDrain(f.deleted[n]) ==>
              && (n in g.removed ==> n in f.removed) && n in g.offlined
              && n in g.beingOffline && g.beingOffline[n].offline
    ensures direct || !HasToDrain(f.deleted[n]) ==> n in g.removed && (n in g.offlined ==> n in f.offlined)
  {
  }

  /** What a call deleted: updated instances that need not drain, and outdated ones that need not, or are
      to be deleted directly. */
  ghost predicate Leaves(f: Fleet, f': Fleet, direct: bool)
  {
    forall n | n in f'.removed && n !in f.removed ::
      || (n in f.update && !HasToDrain(f.update[n]))
      || (n in f.outdated && (direct || !HasToDrain(f.outdated[n])))
  }

  /** An instance as the factory makes them, up to what it keeps of the one before it. */
  ghost predicate MadeBy(factory: nat -> Instance, i: Instance)
  {
    exists k: nat :: i == factory(k).(name := i.name, topology := i.topology, resourceVersion := i.resourceVersion)
  }

  /** What became of the instances in a call: what is newly updated was made by the factory, what awaits
      deletion was outdated before, outdated ones are left alone, and nothing is updated unless `grows`. */
  ghost predicate Descends(grows: bool, f: Fleet, f': Fleet, factory: nat -> Instance, direct: bool)
  {
    && Leaves(f, f', direct)
    && (forall n | n in f'.update ::
          (n in f.update && f'.update[n] == f.update[n]) || (grows && MadeBy(factory, f'.update[n])))
    && Submap(f'.outdated, f.outdated) && f.deleted.Keys <= f'.deleted.Keys
    && (forall n | n in f'.deleted ::
          (n in f.deleted && f'.deleted[n] == f.deleted[n]) || (n in f.outdated && f'.deleted[n] == f.outdated[n]))
  }

  lemma AddedDescends(f: Fleet, o: Instance, factory: nat -> Instance, direct: bool)
    requires MadeBy(factory, o)
    ensures Descends(true, f, Added(f, o), factory, direct) && Descends(true, f, Revived(f, o), factory, direct)
  {
    hide MadeBy, HasToDrain;
  }

  lemma ReplacedDescends(f: Fleet, gone: Instance, o: Instance, factory: nat -> Instance, direct: bool)
    requires MadeBy(factory, o)
    ensures Descends(true, f, Replaced(f, gone, o), factory, direct)
  {
    hide MadeBy, HasToDrain;
  }

  lemma ScaledInUpdateDescends(f: Fleet, gone: Instance, factory: nat -> Instance, direct: bool)
    requires gone.name in f.update && f.update[gone.name] == gone
    ensures Descends(false, f, ScaledInUpdate(f, gone, direct), factory, direct)
  {
    hide MadeBy;
  }

  lemma ScaledInOutdatedDescends(f: Fleet, gone: Instance, factory: nat -> Instance, direct: bool)
    requires gone.name in f.outdated && f.outdated[gone.name] == gone
    ensures Descends(false, f, ScaledInOutdated(f, gone, direct), factory, direct)
  {
    hide MadeBy;
  }

  lemma SetAsideDescends(f: Fleet, gone: Instance, factory: nat -> Instance, direct: bool)
    requires gone.name in f.outdated && f.outdated[gone.name] == gone
    ensures Descends(false, f, SetAside(f, gone), factory, direct)
  {
    hide MadeBy, HasToDrain;
  }

  lemma RecreatedDescends(f: Fleet, gone: Instance, o: Instance, factory: nat -> Instance, direct: bool)
    requires MadeBy(factory, o) && gone.name in f.outdated && f.outdated[gone.name] == gone
    ensures Descends(true, f, Recreated(f, gone, o, direct), factory, direct)
  {
    hide MadeBy, HasToDrain, ScaledInOutdated;
    ScaledInOutdatedDescends(f, gone, factory, direct);
    AddedDescends(ScaledInOutdated(f, gone, direct), o, factory, direct);
  }

  // ---------------------------------------------------------------- over a run

  /** What became of the instances since `f0`. `over` says that the group is still above its maximum. */
  ghost predicate Lineage(over: bool, f0: Fleet, f: Fleet, factory: nat -> Instance, direct: bool)
  {
    && Leaves(f0, f, direct)
    && (forall n | n in f.update ::
          (n in f0.update && f.update[n] == f0.update[n]) || (!over && MadeBy(factory, f.update[n])))
    && Submap(f.outdated, f0.outdated) && f0.deleted.Keys <= f.deleted.Keys
    && (forall n | n in f.deleted ::
          || (n in f0.deleted && f.deleted[n] == f0.deleted[n])
          || (n in f0.outdated && f.deleted[n] == f0.outdated[n]))
  }

  /** One more call. It deletes updated instances only above the maximum, where none was updated before. */
  lemma LineageGrows(over: bool, f0: Fleet, f: Fleet, grows: bool, over': bool, f': Fleet,
                     factory: nat -> Instance, direct: bool)
    requires Lineage(over, f0, f, factory, direct) && Descends(grows, f, f', factory, direct)
    requires (over' ==> over && !grows) && (!over ==> f'.removed <= f.removed + f.outdated.Keys)
    requires forall n | n in f.update :: n !in f.outdated
    ensures Lineage(over', f0, f', factory, direct)
  {
    hide MadeBy, HasToDrain;
  }

  /** What was deleted in the end: no store that has to drain, except outdated ones that are to be deleted
      directly. */
  ghost predicate DeletesDrained(f0: Fleet, removed: set<string>, direct: bool)
  {
    forall n | n in removed && n !in f0.removed ::
      || (n in f0.update && !HasToDrain(f0.update[n]))
      || (n in f0.outdated && (direct || !HasToDrain(f0.outdated[n])))
      || (n in f0.deleted && (direct || !HasToDrain(f0.deleted[n])))
  }

  lemma LineageDeletes(over: bool, f0: Fleet, f: Fleet, f': Fleet, factory: nat -> Instance, direct: bool)
    requires Lineage(over, f0, f, factory, direct) && Leaves(f, f', direct)
    requires !over ==> f'.removed <= f.removed + f.outdated.Keys
    requires forall n | n in f.update :: n !in f.outdated
    ensures DeletesDrained(f0, f'.removed, direct)
  {
    hide MadeBy, HasToDrain;
  }

  lemma CleanupDeletes(over: bool, f0: Fleet, f: Fleet, done: set<string>, f': Fleet, factory: nat -> Instance,
                       direct: bool)
    requires Lineage(over, f0, f, factory, direct) && Drained(f, done, direct, f') && done <= f.deleted.Keys
    ensures DeletesDrained(f0, f'.removed, direct)
  {
    forall n | n in f'.removed && n !in f.removed ensures n in f.deleted && (direct || !HasToDrain(f.deleted[n])) {
      CleanupDrains(f, done, direct, f', n);
    }
  }
}
