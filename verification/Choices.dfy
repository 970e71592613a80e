/** Whom the updater's three selectors pick, by what the instances say of themselves. */
module Choices {
  import opened Wrappers
  import opened Instances
  import opened Ordering
  import opened Selection
  import opened Fleets

  /** A condition counts if it was observed for the current generation. */
  predicate Says(c: Option<Condition>, i: Instance, status: Status)
  {
    c.Some? && c.value.status == status && c.value.observedGeneration == i.generation
  }

  predicate HasExcess(i: Instance) { Says(i.capacityExceedsRequest, i, True) }

  predicate Halted(i: Instance) { Says(i.running, i, False) }

  predicate Lags(i: Instance)
  {
    !Says(i.ready, i, True) || i.observedGeneration != i.generation || i.updateRevision != i.currentRevision
  }

  /** `a` is picked no later than `b`: a lower valid priority first and none last, then the lower cost, then,
      for scale-in, the later creation, and in the end the name if candidates come sorted. */
  ghost predicate Sooner(cost: Instance -> int, a: Instance, b: Instance, newer: bool, sorted: bool)
  {
    if a.priority != b.priority then
      a.priority.Some? && (b.priority.None? || a.priority.value < b.priority.value)
    else if cost(a) != cost(b) then cost(a) < cost(b)
    else if newer && a.created != b.created then a.created > b.created
    else sorted ==> a.name == b.name || Less(a.name, b.name)
  }

  ghost predicate UpdatedSooner(cost: Instance -> int, a: Instance, b: Instance, sorted: bool)
  {
    if Halted(a) != Halted(b) then Halted(a)
    else if Lags(a) != Lags(b) then Lags(a)
    else Sooner(cost, a, b, false, sorted)
  }

  ghost predicate ScaledInSooner(cost: Instance -> int, a: Instance, b: Instance, sorted: bool)
  {
    if HasExcess(a) != HasExcess(b) then HasExcess(a)
    else if Halted(a) != Halted(b) then Halted(a)
    else if Lags(a) != Lags(b) then Lags(a)
    else Sooner(cost, a, b, true, sorted)
  }

  lemma CompareLast(ps: seq<Policy>, p: Policy, a: Instance, b: Instance)
    ensures Compare(ps + [p], a, b) ==
            if p.Rank(a) != p.Rank(b) then p.Rank(a) - p.Rank(b) else Compare(ps, a, b)
  {
    assert (ps + [p])[..|ps + [p]| - 1] == ps;
  }

  /** The two policies that all selectors end with. */
  lemma CompareEnds(cost: Instance -> int, newer: bool, a: Instance, b: Instance)
    ensures var ps := (if newer then [Newer] else []) + [PodDeletionCost(cost)] + [Priority];
            && (Compare(ps, a, b) <= 0 <==> Sooner(cost, a, b, newer, false))
            && (Compare(ps, a, b) < 0 ==> Sooner(cost, a, b, newer, true))
            && (Compare(ps, a, b) == 0 && Less(a.name, b.name) ==> Sooner(cost, a, b, newer, true))
  {
    var start := if newer then [Newer] else [];
    CompareLast(start + [PodDeletionCost(cost)], Priority, a, b);
    CompareLast(start, PodDeletionCost(cost), a, b);
    if newer {
      CompareLast([], Newer, a, b);
      assert [] + [Newer] == [Newer];
    }
  }

  lemma CompareUpdates(cost: Instance -> int, a: Instance, b: Instance)
    ensures var c := Compare(UpdatePolicies(cost, []), a, b);
            && (c <= 0 <==> UpdatedSooner(cost, a, b, false))
            && (c < 0 || (c == 0 && Less(a.name, b.name)) ==> UpdatedSooner(cost, a, b, true))
  {
    hide Compare, Sooner, Less;
    var ends := [] + [PodDeletionCost(cost)] + [Priority];
    assert UpdatePolicies(cost, []) == ends + [Unready] + [NotRunning];
    CompareLast(ends + [Unready], NotRunning, a, b);
    CompareLast(ends, Unready, a, b);
    CompareEnds(cost, false, a, b);
  }

  lemma CompareScaleIns(cost: Instance -> int, a: Instance, b: Instance)
    ensures var c := Compare(ScaleInPolicies(cost, []), a, b);
            && (c <= 0 <==> ScaledInSooner(cost, a, b, false))
            && (c < 0 || (c == 0 && Less(a.name, b.name)) ==> ScaledInSooner(cost, a, b, true))
  {
    hide Compare, Sooner, Less;
    var ends := [Newer] + [PodDeletionCost(cost)] + [Priority];
    assert ScaleInPolicies(cost, []) == ends + [Unready] + [NotRunning] + [CapacityExceedsRequest];
    CompareLast(ends + [Unready] + [NotRunning], CapacityExceedsRequest, a, b);
    CompareLast(ends + [Unready], NotRunning, a, b);
    CompareLast(ends, Unready, a, b);
    CompareEnds(cost, true, a, b);
  }

  /** The choice of built-in policies out of any candidates comes no later than another. */
  lemma FirstIsLeast(ps: seq<Policy>, s: seq<Instance>, y: Instance)
    requires (forall p | p in ps :: !p.Custom?) && s != [] && y in s
    ensures Narrow(ps, s) != [] && Narrow(ps, s)[0] in s
    ensures var x := Narrow(ps, s)[0];
            && Compare(ps, x, y) <= 0
            && (AscendingNames(s) ==> y == x || Compare(ps, x, y) < 0 || Less(x.name, y.name))
  {
    hide Narrow, Compare;
    NarrowIsNonEmpty(ps, s);
    NarrowKeepsMinima(ps, s, Narrow(ps, s)[0]);
    if AscendingNames(s) { ChoiceIsLexicographicMinimum(ps, s, y); }
  }

  lemma SoonerThanItself(cost: Instance -> int, x: Instance)
    ensures UpdatedSooner(cost, x, x, true) && ScaledInSooner(cost, x, x, true) && Sooner(cost, x, x, false, true)
  {
  }

  /** Updates pick, out of what the controller's own policies leave, a stopped instance before one that is not
      ready or not up to date, and that before any other; then by priority and by cost. */
  lemma UpdateOrder(cost: Instance -> int, custom: seq<Policy>, s: seq<Instance>, y: Instance)
    requires y in Narrow(custom, s)
    ensures Narrow(UpdatePolicies(cost, custom), s) != []
    ensures var x := Narrow(UpdatePolicies(cost, custom), s)[0];
            && x in Narrow(custom, s)
            && UpdatedSooner(cost, x, y, AscendingNames(Narrow(custom, s)))
  {
    hide Narrow, Compare, UpdatedSooner;
    var ps, pool := UpdatePolicies(cost, []), Narrow(custom, s);
    assert UpdatePolicies(cost, custom) == ps + custom;
    NarrowInTwo(ps, custom, s);
    FirstIsLeast(ps, pool, y);
    CompareUpdates(cost, Narrow(ps, pool)[0], y);
    SoonerThanItself(cost, y);
  }

  /** Scale-in picks one with excess capacity first, then as updates do, and among equal costs the latest. */
  lemma ScaleInOrder(cost: Instance -> int, custom: seq<Policy>, s: seq<Instance>, y: Instance)
    requires y in Narrow(custom, s)
    ensures Narrow(ScaleInPolicies(cost, custom), s) != []
    ensures var x := Narrow(ScaleInPolicies(cost, custom), s)[0];
            && x in Narrow(custom, s)
            && ScaledInSooner(cost, x, y, AscendingNames(Narrow(custom, s)))
  {
    hide Narrow, Compare, ScaledInSooner;
    var ps, pool := ScaleInPolicies(cost, []), Narrow(custom, s);
    assert ScaleInPolicies(cost, custom) == ps + custom;
    NarrowInTwo(ps, custom, s);
    FirstIsLeast(ps, pool, y);
    CompareScaleIns(cost, Narrow(ps, pool)[0], y);
    SoonerThanItself(cost, y);
  }

  /** What is taken back is, of the instances that every filter lets through, one of lowest priority, then
      cost, then name. */
  lemma TakenBackInOrder(cost: Instance -> int, fs: seq<Filter>, m: State, x: Instance, n: string)
    requires Named(m) && IsFilteredChoice(fs, CancelOfflinePolicies(cost), m, x)
    requires n in m && forall f | f in fs ::
               && (f.AnnotationAbsent? ==> f.key !in m[n].annotations)
               && (f.OnRevision? ==> m[n].updateRevision == f.revision)
    ensures Sooner(cost, x, m[n], false, true)
    ensures forall f | f in fs ::
              (f.AnnotationAbsent? ==> f.key !in x.annotations) && (f.OnRevision? ==> x.updateRevision == f.revision)
  {
    hide Narrow, Compare, Sooner, List;
    var ps, s := CancelOfflinePolicies(cost), Eligible(fs, List(m));
    ListHolds(m, m[n]);
    ListIsSorted(m);
    EligibleComesFrom(fs, List(m), m[n]);
    EligibleKeepsOrder(fs, List(m));
    FirstIsLeast(ps, s, m[n]);
    assert ps == [] + [PodDeletionCost(cost)] + [Priority];
    CompareEnds(cost, false, x, m[n]);
    SoonerThanItself(cost, x);
  }

  lemma {:induction false} EligibleKeepsOrder(fs: seq<Filter>, s: seq<Instance>)
    requires AscendingNames(s)
    ensures AscendingNames(Eligible(fs, s))
  {
    if s != [] {
      var init := Eligible(fs, s[..|s| - 1]);
      EligibleKeepsOrder(fs, s[..|s| - 1]);
      forall x | x in init ensures Less(x.name, s[|s| - 1].name) {
        EligibleComesFrom(fs, s[..|s| - 1], x);
      }
    }
  }

  /** Scale-in out of a set of instances, with no policies but the built-in ones. */
  lemma ScaleInTakesFirst(cost: Instance -> int, m: State, x: Instance, n: string)
    requires Named(m) && IsChoice(ScaleInPolicies(cost, []), m, x) && n in m
    ensures ScaledInSooner(cost, x, m[n], true)
  {
    hide Narrow, List, ScaledInSooner;
    ListHolds(m, m[n]);
    ListIsSorted(m);
    NarrowByNone(List(m));
    ScaleInOrder(cost, [], List(m), m[n]);
  }

  /** Updates out of a set of instances, with no policies but the built-in ones. */
  lemma UpdateTakesFirst(cost: Instance -> int, m: State, x: Instance, n: string)
    requires Named(m) && IsChoice(UpdatePolicies(cost, []), m, x) && n in m
    ensures UpdatedSooner(cost, x, m[n], true)
  {
    hide Narrow, List, UpdatedSooner;
    ListHolds(m, m[n]);
    ListIsSorted(m);
    NarrowByNone(List(m));
    UpdateOrder(cost, [], List(m), m[n]);
  }
}
