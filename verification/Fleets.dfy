/** The four name-keyed sets of instances an actor works on, what it has done to the cluster, and
    the moves it can make. */
module Fleets {
  import opened Instances
  import opened Ordering
  import opened Selection

  type State = map<string, Instance>

  /** Instances are kept under their names. */
  ghost predicate Named(m: State)
  {
    forall n | n in m :: m[n].name == n
  }

  // ---------------------------------------------------------------- listing and counting

  function Get(m: State, names: seq<string>, k: nat): Instance
    requires Elements(names) <= m.Keys && k < |names|
  {
    assert names[k] in Elements(names);
    m[names[k]]
  }

  /** The instances sorted by name. */
  function List(m: State): seq<Instance>
  {
    var names := Sorted(m.Keys);
    seq(|names|, k requires 0 <= k < |names| => Get(m, names, k))
  }

  lemma ListIsSorted(m: State)
    requires Named(m)
    ensures AscendingNames(List(m))
  {
  }

  lemma ListEmpty(m: State)
    ensures List(m) == [] <==> m == map[]
  {
    assert m == map[] <==> m.Keys == {};
  }

  lemma ListHolds(m: State, i: Instance)
    requires Named(m)
    ensures i in List(m) <==> i.name in m && m[i.name] == i
  {
    var names, l := Sorted(m.Keys), List(m);
    if i in l {
      var k :| 0 <= k < |l| && l[k] == i;
      assert l[k] == Get(m, names, k);
    }
    if i.name in m && m[i.name] == i {
      assert i.name in Elements(names);
      var k :| 0 <= k < |names| && names[k] == i.name;
      assert l[k] == Get(m, names, k) == i;
    }
  }

  /** `x` is what a selector with policies `ps` takes out of `m`. */
  ghost predicate IsChoice(ps: seq<Policy>, m: State, x: Instance)
  {
    && x.name in m && m[x.name] == x
    && Narrow(ps, List(m)) != [] && x == Narrow(ps, List(m))[0]
  }

  lemma ChosenIsListed(fs: seq<Filter>, ps: seq<Policy>, m: State, x: Instance)
    requires Named(m)
    requires forall p | p in ps :: p.WellBehaved()
    requires Narrow(ps, Eligible(fs, List(m))) != [] && x == Narrow(ps, Eligible(fs, List(m)))[0]
    ensures x.name in m && m[x.name] == x
    ensures forall f | f in fs :: f.Eligible(x)
  {
    NarrowComesFrom(ps, Eligible(fs, List(m)), x);
    EligibleComesFrom(fs, List(m), x);
    ListHolds(m, x);
  }

  /** `x` is what a selector with filters `fs` and policies `ps` takes out of `m`. */
  ghost predicate IsFilteredChoice(fs: seq<Filter>, ps: seq<Policy>, m: State, x: Instance)
  {
    && x.name in m && m[x.name] == x && (forall f | f in fs :: f.Eligible(x))
    && Narrow(ps, Eligible(fs, List(m))) != [] && x == Narrow(ps, Eligible(fs, List(m)))[0]
  }

  ghost predicate AnyEligible(fs: seq<Filter>, m: State)
  {
    exists n | n in m :: forall f | f in fs :: f.Eligible(m[n])
  }

  lemma NoneEligible(fs: seq<Filter>, m: State)
    requires Named(m)
    ensures Eligible(fs, List(m)) == [] <==> !AnyEligible(fs, m)
  {
    hide List, Eligible, Filter.Eligible;
    if AnyEligible(fs, m) {
      var n :| n in m && forall f | f in fs :: f.Eligible(m[n]);
      ListHolds(m, m[n]);
      EligibleComesFrom(fs, List(m), m[n]);
    } else if Eligible(fs, List(m)) != [] {
      var x := Eligible(fs, List(m))[0];
      EligibleComesFrom(fs, List(m), x);
      ListHolds(m, x);
    }
  }

  /** Instances that do not run. */
  function Stopped(m: State): set<string> { set n | n in m && m[n].IsNotRunning() }

  /** Instances that do not serve (yet). */
  function Idle(m: State, minReadySeconds: int, now: int): set<string>
  {
    set n | n in m && !m[n].Serves(minReadySeconds, now)
  }

  lemma CountWithout(m: State, n: string, minReadySeconds: int, now: int)
    requires n in m
    ensures |m - {n}| == |m| - 1
    ensures |Stopped(m - {n})| == |Stopped(m)| - (if m[n].IsNotRunning() then 1 else 0)
    ensures |Idle(m - {n}, minReadySeconds, now)| ==
            |Idle(m, minReadySeconds, now)| - (if m[n].Serves(minReadySeconds, now) then 0 else 1)
  {
    hide Instance.Serves, Instance.IsNotRunning;
    assert (m - {n}).Keys == m.Keys - {n};
    assert Stopped(m - {n}) == Stopped(m) - {n};
    assert Idle(m - {n}, minReadySeconds, now) == Idle(m, minReadySeconds, now) - {n};
  }

  lemma WithOneMore(m: State, o: Instance, minReadySeconds: int, now: int)
    requires o.name !in m
    ensures m[o.name := o].Keys == m.Keys + {o.name}
    ensures Stopped(m[o.name := o]) == if o.IsNotRunning() then Stopped(m) + {o.name} else Stopped(m)
    ensures Idle(m[o.name := o], minReadySeconds, now) ==
            if o.Serves(minReadySeconds, now) then Idle(m, minReadySeconds, now)
            else Idle(m, minReadySeconds, now) + {o.name}
    ensures o.name !in Stopped(m) && o.name !in Idle(m, minReadySeconds, now)
  {
    hide Instance.Serves, Instance.IsNotRunning;
  }

  lemma CountWith(m: State, o: Instance, minReadySeconds: int, now: int)
    requires o.name !in m
    ensures |m[o.name := o]| == |m| + 1
    ensures |Stopped(m[o.name := o])| == |Stopped(m)| + (if o.IsNotRunning() then 1 else 0)
    ensures |Idle(m[o.name := o], minReadySeconds, now)| ==
            |Idle(m, minReadySeconds, now)| + (if o.Serves(minReadySeconds, now) then 0 else 1)
  {
    hide Instance.Serves, Instance.IsNotRunning, Idle, Stopped;
    WithOneMore(m, o, minReadySeconds, now);
    assert |m[o.name := o].Keys| == |m.Keys| + 1;
  }

  lemma SubsetIsSmaller(a: set<string>, b: set<string>)
    requires a <= b
    ensures |a| <= |b|
  {
    assert b == a + (b - a);
  }

  /** The policies pick a stopped instance out of every set that has one. */
  ghost predicate PicksStopped(ps: seq<Policy>)
  {
    forall m: State, x: Instance | Named(m) && Stopped(m) != {} && IsChoice(ps, m, x) :: x.IsNotRunning()
  }

  /** The update policies do so exactly if the controller's own leave a stopped instance among the
      candidates wherever there is one. */
  lemma PicksStoppedExactly(cost: Instance -> int, custom: seq<Policy>)
    requires forall p | p in custom :: p.WellBehaved()
    ensures PicksStopped(UpdatePolicies(cost, custom)) <==>
              forall m: State | Named(m) && Stopped(m) != {} ::
                exists x :: x in Narrow(custom, List(m)) && x.IsNotRunning()
    ensures custom == [] ==> PicksStopped(UpdatePolicies(cost, custom))
  {
    hide Narrow, UpdatePolicies, List, Stopped, Instance.IsNotRunning, Named, Policy.WellBehaved;
    var ps := UpdatePolicies(cost, custom);
    forall m: State, x: Instance | Named(m) && Stopped(m) != {} && IsChoice(ps, m, x)
      ensures x.IsNotRunning() <==> exists y :: y in Narrow(custom, List(m)) && y.IsNotRunning()
      ensures custom == [] ==> x.IsNotRunning()
    {
      SomeStopped(m);
      UpdatePrefersStopped(cost, custom, List(m));
    }
    if PicksStopped(ps) {
      forall m: State | Named(m) && Stopped(m) != {}
        ensures exists x :: x in Narrow(custom, List(m)) && x.IsNotRunning()
      {
        SomeStopped(m);
        UpdatePrefersStopped(cost, custom, List(m));
        PoliciesAreWellBehaved(cost, custom);
        ChosenIsListed([], ps, m, Narrow(ps, List(m))[0]) by { NoFilter(List(m)); }
        assert IsChoice(ps, m, Narrow(ps, List(m))[0]);
      }
    }
  }

  lemma PoliciesAreWellBehaved(cost: Instance -> int, custom: seq<Policy>)
    requires forall p | p in custom :: p.WellBehaved()
    ensures forall p | p in UpdatePolicies(cost, custom) :: p.WellBehaved()
    ensures forall p | p in ScaleInPolicies(cost, custom) :: p.WellBehaved()
  {
  }

  /** What scaling in an updated instance reports as unavailable. */
  predicate Down(i: Instance) { !i.IsReady() || !i.IsUpToDate() }

  ghost predicate Submap(sub: State, m: State)
  {
    forall n | n in sub :: n in m && sub[n] == m[n]
  }

  /** Out of `m`, and out of what is left of it, the policies take stopped instances first. */
  ghost predicate TakesStopped(ps: seq<Policy>, m: State)
  {
    forall sub: State, x: Instance | Submap(sub, m) && Stopped(sub) != {} && IsChoice(ps, sub, x) :: x.IsNotRunning()
  }

  /** Likewise for those that are not ready or not up to date. */
  ghost predicate TakesDown(ps: seq<Policy>, m: State)
  {
    forall sub: State, x: Instance, n: string | Submap(sub, m) && n in sub && Down(sub[n]) && IsChoice(ps, sub, x) ::
      Down(x)
  }

  /** The policies a controller adds let every instance of `m`, and of what is left of it, through. */
  ghost predicate LeavesAll(custom: seq<Policy>, m: State)
  {
    forall sub: State | Submap(sub, m) :: Narrow(custom, List(sub)) == List(sub)
  }

  /** The built-in scale-in policies do both where no instance has excess capacity and a stopped
      instance is never ready. */
  lemma BuiltInScaleIn(cost: Instance -> int, custom: seq<Policy>, m: State)
    requires Named(m) && forall n | n in m :: !m[n].Observed(m[n].capacityExceedsRequest, True)
    requires LeavesAll(custom, m)
    ensures TakesStopped(ScaleInPolicies(cost, custom), m)
    ensures (forall n | n in m && m[n].IsNotRunning() :: Down(m[n])) ==> TakesDown(ScaleInPolicies(cost, custom), m)
  {
    hide Narrow, ScaleInPolicies, List, Instance.IsNotRunning, Instance.IsReady, Instance.IsUpToDate, Instance.Observed;
    hide LeavesAll;
    var ps := ScaleInPolicies(cost, custom);
    forall sub: State, x: Instance | Submap(sub, m) && Stopped(sub) != {} && IsChoice(ps, sub, x)
      ensures x.IsNotRunning()
    {
      var n :| n in Stopped(sub);
      ChosenDownFirst(cost, custom, m, sub, x, n);
    }
    if forall n | n in m && m[n].IsNotRunning() :: Down(m[n]) {
      forall sub: State, x: Instance, n: string | Submap(sub, m) && n in sub && Down(sub[n]) && IsChoice(ps, sub, x)
        ensures Down(x)
      {
        ChosenDownFirst(cost, custom, m, sub, x, n);
      }
    }
  }

  lemma ChosenDownFirst(cost: Instance -> int, custom: seq<Policy>, m: State, sub: State, x: Instance, n: string)
    requires Named(m) && forall k | k in m :: !m[k].Observed(m[k].capacityExceedsRequest, True)
    requires LeavesAll(custom, m)
    requires Submap(sub, m) && IsChoice(ScaleInPolicies(cost, custom), sub, x) && n in sub
    ensures sub[n].IsNotRunning() ==> x.IsNotRunning()
    ensures Down(sub[n]) ==> x.IsNotRunning() || Down(x)
  {
    hide Narrow, List, Instance.IsNotRunning, Instance.IsReady, Instance.IsUpToDate, Instance.Observed;
    var s, builtIn := List(sub), ScaleInPolicies(cost, []);
    ListHolds(sub, sub[n]);
    forall y | y in s ensures !y.Observed(y.capacityExceedsRequest, True) { ListHolds(sub, y); }
    assert ScaleInPolicies(cost, custom) == builtIn + custom;
    NarrowInTwo(builtIn, custom, s);
    ScaleInPrefersDown(cost, s);
  }

  lemma SomeStopped(m: State)
    requires Named(m) && Stopped(m) != {}
    ensures exists x :: x in List(m) && x.IsNotRunning()
  {
    var n :| n in Stopped(m);
    ListHolds(m, m[n]);
  }

  // ---------------------------------------------------------------- moves

  datatype Fleet = Fleet(
    update: State,
    outdated: State,
    deleted: State,
    beingOffline: State,
    offlined: set<string>,
    removed: set<string>)
  {
    ghost function Names(): set<string> {
      update.Keys + outdated.Keys + deleted.Keys + beingOffline.Keys
    }

    /** A name is in one set at most, a deleted one in none, and what this actor marked offline
        is neither outdated nor awaiting deletion. */
    ghost predicate Sound() {
      && Named(update) && Named(outdated) && Named(deleted) && Named(beingOffline)
      && (forall n | n in update :: n !in outdated && n !in deleted && n !in beingOffline && n !in removed)
      && (forall n | n in outdated :: n !in deleted && n !in beingOffline && n !in removed && n !in offlined)
      && (forall n | n in deleted :: n !in beingOffline && n !in removed && n !in offlined)
      && (forall n | n in beingOffline :: n !in removed)
      && (forall n | n in removed :: n !in offlined)
    }

    /** Instances in service: updated ones that serve and outdated ones that run. */
    ghost function InService(minReadySeconds: int, now: int): int {
      |update| - |Idle(update, minReadySeconds, now)| + |outdated| - |Stopped(outdated)|
    }
  }

  /** Whether taking the instance away means marking it offline first. */
  predicate GoesOffline(i: Instance, isOutdated: bool, directDeleteOutdated: bool)
  {
    (!isOutdated || !directDeleteOutdated) && i.supportsOffline && !i.offline && !i.IsStoreOfflined()
  }

  function Offlined(i: Instance): Instance
  {
    i.(offline := true, annotations := i.annotations - {ANNO_DEFER_DELETE})
  }

  /** A new object made to replace `prior`: name, topology and resource version are kept. */
  function Renewed(obj: Instance, prior: Instance): Instance
  {
    obj.(name := prior.name, topology := prior.topology, resourceVersion := prior.resourceVersion)
  }

  function Added(f: Fleet, o: Instance): Fleet
  {
    f.(update := f.update[o.name := o])
  }

  /** An instance going offline comes back as an updated one. */
  function Revived(f: Fleet, o: Instance): Fleet
  {
    f.(beingOffline := f.beingOffline - {o.name}, update := f.update[o.name := o])
  }

  function TakenAway(f: Fleet, obj: Instance, isOutdated: bool, directDeleteOutdated: bool): Fleet
  {
    if GoesOffline(obj, isOutdated, directDeleteOutdated)
    then f.(beingOffline := f.beingOffline[obj.name := Offlined(obj)], offlined := f.offlined + {obj.name})
    else f.(removed := f.removed + {obj.name})
  }

  function ScaledInUpdate(f: Fleet, gone: Instance, directDeleteOutdated: bool): Fleet
  {
    TakenAway(f.(update := f.update - {gone.name}), gone, false, directDeleteOutdated)
  }

  function ScaledInOutdated(f: Fleet, gone: Instance, directDeleteOutdated: bool): Fleet
  {
    TakenAway(f.(outdated := f.outdated - {gone.name}), gone, true, directDeleteOutdated)
  }

  /** An outdated instance is marked for deletion by a later Cleanup. */
  function SetAside(f: Fleet, gone: Instance): Fleet
  {
    f.(outdated := f.outdated - {gone.name}, deleted := f.deleted[gone.name := gone])
  }

  /** An outdated instance is updated in place. */
  function Replaced(f: Fleet, gone: Instance, o: Instance): Fleet
  {
    f.(outdated := f.outdated - {gone.name}, update := f.update[o.name := o])
  }

  /** An outdated instance is taken away at once, and an instance scaled out in its place. */
  function Recreated(f: Fleet, gone: Instance, o: Instance, directDeleteOutdated: bool): Fleet
  {
    var g := ScaledInOutdated(f, gone, directDeleteOutdated);
    if o.name in g.beingOffline then Revived(g, o) else Added(g, o)
  }

  /** Instances awaiting deletion that have to drain first. */
  ghost function Draining(f: Fleet, names: set<string>, directDeleteOutdated: bool): set<string>
  {
    set n | n in names && n in f.deleted && GoesOffline(f.deleted[n], true, directDeleteOutdated)
  }

  /** What cleaning up the instances `done` has made of the fleet: of those that awaited deletion, the ones
      to be offlined first are, the others are deleted, and nothing else is touched. */
  ghost predicate Drained(f: Fleet, done: set<string>, directDeleteOutdated: bool, g: Fleet)
  {
    var offline := Draining(f, done, directDeleteOutdated);
    && g.offlined == f.offlined + offline && g.removed == f.removed + (done - offline)
    && g.beingOffline == (map n | n in f.beingOffline.Keys + offline ::
                            if n in offline then Offlined(f.deleted[n]) else f.beingOffline[n])
    && g.update == f.update && g.outdated == f.outdated && g.deleted == f.deleted
  }

  // ---------------------------------------------------------------- what the moves keep

  /** Nothing is forgotten: every name is still in some set, or was deleted. */
  ghost predicate Conserves(f: Fleet, f': Fleet)
  {
    f.Names() <= f'.Names() + f'.removed && f.removed <= f'.removed
  }

  lemma AddedIsSound(f: Fleet, o: Instance)
    requires f.Sound() && o.name !in f.Names() + f.removed
    ensures Added(f, o).Sound() && o.name !in f.update
  {
  }

  lemma AddedNames(f: Fleet, o: Instance)
    ensures Added(f, o).Names() == f.Names() + {o.name} && Conserves(f, Added(f, o))
  {
  }

  lemma RevivedIsSound(f: Fleet, o: Instance)
    requires f.Sound() && o.name in f.beingOffline
    ensures Revived(f, o).Sound() && o.name !in f.update
  {
  }

  lemma RevivedNames(f: Fleet, o: Instance)
    requires o.name in f.beingOffline
    ensures Revived(f, o).Names() == f.Names() && Conserves(f, Revived(f, o))
  {
  }

  lemma ScaledInUpdateIsSound(f: Fleet, gone: Instance, direct: bool)
    requires f.Sound() && f.offlined <= f.beingOffline.Keys
    requires gone.name in f.update && f.update[gone.name] == gone
    ensures ScaledInUpdate(f, gone, direct).Sound()
  {
  }

  lemma ScaledInUpdateNames(f: Fleet, gone: Instance, direct: bool)
    requires gone.name in f.update && f.offlined <= f.beingOffline.Keys
    ensures var f' := ScaledInUpdate(f, gone, direct);
            && f'.Names() + f'.removed == f.Names() + f.removed
            && Conserves(f, f')
            && f'.update.Keys <= f.update.Keys && f'.removed <= f.removed + f.update.Keys
            && f'.offlined <= f'.beingOffline.Keys
  {
  }

  lemma SetAsideIsSound(f: Fleet, gone: Instance)
    requires f.Sound() && gone.name in f.outdated && f.outdated[gone.name] == gone
    ensures SetAside(f, gone).Sound()
  {
  }

  lemma SetAsideNames(f: Fleet, gone: Instance)
    requires gone.name in f.outdated
    ensures SetAside(f, gone).Names() == f.Names() && Conserves(f, SetAside(f, gone))
  {
  }

  lemma ReplacedIsSound(f: Fleet, gone: Instance, o: Instance)
    requires f.Sound() && gone.name in f.outdated && o.name == gone.name
    ensures Replaced(f, gone, o).Sound() && o.name !in f.update
  {
  }

  lemma ReplacedNames(f: Fleet, gone: Instance, o: Instance)
    requires gone.name in f.outdated && o.name == gone.name
    ensures Replaced(f, gone, o).Names() == f.Names() && Conserves(f, Replaced(f, gone, o))
    ensures Replaced(f, gone, o).removed == f.removed
  {
  }

  lemma ScaledInOutdatedIsSound(f: Fleet, gone: Instance, direct: bool)
    requires f.Sound() && gone.name in f.outdated && f.outdated[gone.name] == gone
    ensures ScaledInOutdated(f, gone, direct).Sound()
  {
    hide GoesOffline;
  }

  lemma ScaledInOutdatedNames(f: Fleet, gone: Instance, direct: bool)
    requires gone.name in f.outdated
    ensures var g := ScaledInOutdated(f, gone, direct);
            && g.Names() + g.removed == f.Names() + f.removed && Conserves(f, g)
            && g.removed <= f.removed + {gone.name}
            && g.update == f.update && g.outdated == f.outdated - {gone.name}
  {
    hide GoesOffline;
  }

  lemma RecreatedIsSound(f: Fleet, gone: Instance, o: Instance, direct: bool)
    requires f.Sound() && gone.name in f.outdated && f.outdated[gone.name] == gone
    requires o.name in ScaledInOutdated(f, gone, direct).beingOffline || o.name !in f.Names() + f.removed
    ensures var f' := Recreated(f, gone, o, direct);
            && f'.Sound() && o.name !in f.update
            && f'.Names() + f'.removed <= f.Names() + f.removed + {o.name} && Conserves(f, f')
            && f'.removed <= f.removed + {gone.name}
            && f'.outdated == f.outdated - {gone.name} && f'.update == f.update[o.name := o]
  {
    hide Fleet.Sound, Fleet.Names, Conserves, ScaledInOutdated;
    var g := ScaledInOutdated(f, gone, direct);
    ScaledInOutdatedIsSound(f, gone, direct);
    ScaledInOutdatedNames(f, gone, direct);
    if o.name in g.beingOffline {
      RevivedIsSound(g, o);
      RevivedNames(g, o);
    } else {
      AddedIsSound(g, o);
      AddedNames(g, o);
    }
    ConservesIsTransitive(f, g, Recreated(f, gone, o, direct));
  }

  lemma ConservesIsTransitive(f: Fleet, g: Fleet, h: Fleet)
    requires Conserves(f, g) && Conserves(g, h)
    ensures Conserves(f, h)
  {
  }

  /** The names in use still cover the fleet after a move that adds at most `o`. */
  lemma StaysCovered(f: Fleet, f': Fleet, o: string, before: set<string>, after: set<string>)
    requires f.Names() + f.removed <= before <= after && o in after
    requires f'.Names() + f'.removed <= f.Names() + f.removed + {o}
    ensures f'.Names() + f'.removed <= after
  {
  }
}
