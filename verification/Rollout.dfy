/** The rolling-update loop of the updater, as a transition system over its seven counters.

    `Decide` says which actor call one pass of the loop makes, `After` how the counters move when
    the call succeeds, and `Stops` when the loop gives up right after the call. A `Run` is the
    list of counters at the loop head together with the calls between them. The theorems at the
    end hold of every run, whatever the actor reports. */
module Rollout {

  function Min(a: int, b: int): int { if a < b then a else b }

  function Max(a: int, b: int): int { if a < b then b else a }

  datatype Counters = Counters(
    update: int,
    outdated: int,
    desired: int,
    unavailableUpdate: int,
    unavailableOutdated: int,
    maxSurge: int,
    maxUnavailable: int)
  {
    function Actual(): int { update + outdated }

    function Available(): int { Actual() - unavailableUpdate - unavailableOutdated }

    function Maximum(): int { desired + Min(maxSurge, outdated) }

    function Minimum(): int { desired - maxUnavailable }

    predicate Converged() { update == desired && outdated == 0 }

    predicate Over() { Actual() > Maximum() }

    // Nothing bounds unavailableUpdate by update, nor unavailableOutdated from below: see `Plausible`.
    predicate Sane() {
      && 0 <= update && 0 <= outdated && 0 <= desired
      && 0 <= unavailableUpdate && unavailableOutdated <= outdated
      && 0 <= maxSurge && 0 <= maxUnavailable
    }

    // How many single-instance changes separate the group from its goal.
    function Distance(): int {
      outdated + if update < desired then desired - update else update - desired
    }

    predicate SamePolicy(c: Counters) {
      desired == c.desired && maxSurge == c.maxSurge && maxUnavailable == c.maxUnavailable
    }
  }

  datatype Call = ScaleOut | Update(unavailable: bool) | ScaleInUpdate | ScaleInOutdated

  datatype Decision = Wait | Act(call: Call)

  /** The actor call made by one pass of the loop, or `Wait` when the pass returns first. */
  function Decide(c: Counters): Decision
  {
    if c.Actual() < c.Maximum() then Act(ScaleOut)
    else if c.Actual() == c.Maximum() then
      if c.update < c.desired then
        if c.unavailableOutdated > 0 then Act(Update(true))
        else if c.Available() <= c.Minimum() then Wait
        else Act(Update(false))
      else if c.Available() <= c.Minimum() && c.unavailableUpdate > 0 then Wait
      else Act(ScaleInOutdated)
    else if c.update > c.desired then Act(ScaleInUpdate)
    else Act(ScaleInOutdated)
  }

  /** A successful call and the availability the actor reported for the instance it took away. */
  datatype Step = Step(call: Call, unavailable: bool)

  function After(c: Counters, s: Step): Counters
  {
    match s.call
    case ScaleOut =>
      c.(update := c.update + 1, unavailableUpdate := c.unavailableUpdate + 1)
    case Update(true) =>
      c.(outdated := c.outdated - 1, unavailableOutdated := c.unavailableOutdated - 1,
         update := c.update + 1, unavailableUpdate := c.unavailableUpdate + 1)
    case Update(false) =>
      c.(outdated := c.outdated - 1, update := c.update + 1, unavailableUpdate := c.unavailableUpdate + 1)
    case ScaleInUpdate =>
      c.(update := c.update - 1,
         unavailableUpdate := if s.unavailable then c.unavailableUpdate - 1 else c.unavailableUpdate)
    case ScaleInOutdated =>
      c.(outdated := c.outdated - 1,
         unavailableOutdated := if s.unavailable then c.unavailableOutdated - 1 else c.unavailableOutdated)
  }

  /** The reports an actor can make. An updated instance that is ready but not yet available is
      counted as unavailable and reported as available. Outdated instances are counted by the same
      test the actor reports with, but more of them may be down than are still counted. */
  predicate Plausible(c: Counters, s: Step)
  {
    match s.call
    case ScaleInUpdate => s.unavailable ==> c.unavailableUpdate > 0
    case ScaleInOutdated => s.unavailable || c.unavailableOutdated < c.outdated
    case _ => true
  }

  /** After removing an available instance while above the maximum, the loop ends if no slack is left. */
  predicate Stops(c: Counters, s: Step)
  {
    c.Over() && !s.unavailable && After(c, s).Available() <= c.Minimum()
  }

  predicate Legal(c: Counters, s: Step)
  {
    !c.Converged() && Decide(c) == Act(s.call) && Plausible(c, s)
  }

  datatype Run = Run(heads: seq<Counters>, steps: seq<Step>)

  predicate IsRun(r: Run)
  {
    && |r.heads| == |r.steps| + 1
    && r.heads[0].Sane()
    && (forall i | 0 <= i < |r.steps| :: Legal(r.heads[i], r.steps[i]))
    && (forall i | 0 <= i < |r.steps| :: r.heads[i + 1] == After(r.heads[i], r.steps[i]))
    && (forall i | 0 <= i < |r.steps| - 1 :: !Stops(r.heads[i], r.steps[i]))
  }

  function First(r: Run): Counters
    requires |r.heads| > 0
  {
    r.heads[0]
  }

  function Last(r: Run): Counters
    requires |r.heads| > 0
  {
    r.heads[|r.heads| - 1]
  }

  /** The loop did not give up right after its last call. */
  predicate Open(r: Run)
    requires IsRun(r)
  {
    r.steps != [] ==> !Stops(r.heads[|r.steps| - 1], r.steps[|r.steps| - 1])
  }

  /** A run that went as far as the loop goes: no call failed and nothing is left to do. */
  predicate Finished(r: Run)
    requires IsRun(r)
  {
    Last(r).Converged() || Decide(Last(r)) == Wait || !Open(r)
  }

  /** The loop ended because everything is updated, and no updated instance is awaited. */
  predicate CleansUp(r: Run)
    requires IsRun(r)
  {
    Open(r) && Last(r).Converged() && Last(r).unavailableUpdate <= 0
  }

  // ---------------------------------------------------------------- one step

  lemma StepKeepsSane(c: Counters, s: Step)
    requires c.Sane() && Legal(c, s)
    ensures After(c, s).Sane() && After(c, s).SamePolicy(c)
    ensures After(c, s).Distance() < c.Distance()
  {
  }

  /** actual - maximum moves towards zero and never crosses it. */
  lemma StepKeepsSide(c: Counters, s: Step)
    requires c.Sane() && Legal(c, s)
    ensures c.Actual() <= c.Maximum() ==> After(c, s).Actual() <= After(c, s).Maximum()
    ensures c.Actual() >= c.Maximum() ==> After(c, s).Actual() >= After(c, s).Maximum()
    ensures After(c, s).Actual() <= Max(c.Actual(), c.desired + c.maxSurge)
  {
  }

  /** What a single call can cost in tracked availability. */
  lemma StepCost(c: Counters, s: Step)
    requires c.Sane() && Legal(c, s)
    ensures After(c, s).Available() == c.Available()
         || (After(c, s).Available() == c.Available() - 1 && c.Minimum() <= After(c, s).Available())
         || (After(c, s).Available() == c.Available() - 1 && Stops(c, s))
  {
  }

  // ---------------------------------------------------------------- what a pass is for

  /** The loop waits only without slack, and then only if all it could do next costs an available
      instance, or might while updated instances are still awaited. */
  lemma WaitsExactly(c: Counters)
    requires c.Sane() && !c.Converged()
    ensures Decide(c).Wait? <==>
              && c.update + c.outdated == c.desired + Min(c.maxSurge, c.outdated)
              && c.update + c.outdated - c.unavailableUpdate - c.unavailableOutdated <= c.desired - c.maxUnavailable
              && ((c.update < c.desired && c.unavailableOutdated <= 0)
                  || (c.update == c.desired && c.unavailableUpdate > 0))
  {
  }

  /** Each call is made only where it is called for: instances are added only below the maximum and
      replaced only at it, and only while updated ones are missing; a running one is replaced only with
      slack and if none is counted as down; updated ones are scaled in only down to what is desired;
      and outdated ones only once no updated one is surplus, leaving no fewer than desired. */
  lemma CallsAreWarranted(c: Counters)
    requires c.Sane() && !c.Converged()
    ensures var actual, maximum := c.update + c.outdated, c.desired + Min(c.maxSurge, c.outdated);
            var slack := actual - c.unavailableUpdate - c.unavailableOutdated > c.desired - c.maxUnavailable;
            match Decide(c)
            case Wait => !slack
            case Act(ScaleOut) => actual < maximum
            case Act(Update(true)) => actual == maximum && c.update < c.desired && c.unavailableOutdated > 0
            case Act(Update(false)) => actual == maximum && c.update < c.desired && c.unavailableOutdated <= 0 && slack
            case Act(ScaleInUpdate) => actual > maximum && c.update > c.desired
            case Act(ScaleInOutdated) =>
              && c.outdated > 0 && actual > c.desired
              && ((actual > maximum && c.update <= c.desired)
                  || (actual == maximum && c.update == c.desired && (slack || c.unavailableUpdate == 0)))
  {
  }

  /** The loop gives up after a call only if that took an available instance, and no slack is left. */
  lemma StopsOnlyWithoutSlack(c: Counters, s: Step)
    requires c.Sane() && Legal(c, s) && Stops(c, s)
    ensures var d := After(c, s);
            && d.update + d.outdated - d.unavailableUpdate - d.unavailableOutdated <= d.desired - d.maxUnavailable
            && d.Available() == c.Available() - 1
  {
  }

  /** What a finished run leaves to wait for: availability below the minimum, or updated instances. */
  lemma FinishedMeans(r: Run)
    requires IsRun(r) && Finished(r)
    ensures var c := Last(r);
            if CleansUp(r) then c.update == c.desired && c.outdated == 0 && c.unavailableUpdate <= 0
            else
              || c.update + c.outdated - c.unavailableUpdate - c.unavailableOutdated <= c.desired - c.maxUnavailable
              || (c.update == c.desired && c.outdated == 0 && c.unavailableUpdate > 0)
  {
    HeadIsSane(r, |r.steps|);
    if !Open(r) {
      var i := |r.steps| - 1;
      HeadIsSane(r, i);
      assert Legal(r.heads[i], r.steps[i]);
      StopsOnlyWithoutSlack(r.heads[i], r.steps[i]);
    }
  }

  // ---------------------------------------------------------------- whole runs

  lemma {:induction false} HeadIsSane(r: Run, i: nat)
    requires IsRun(r) && i < |r.heads|
    ensures r.heads[i].Sane() && r.heads[i].SamePolicy(First(r))
  {
    if i > 0 {
      HeadIsSane(r, i - 1);
      assert Legal(r.heads[i - 1], r.steps[i - 1]);
      StepKeepsSane(r.heads[i - 1], r.steps[i - 1]);
    }
  }

  /** Each call brings the group closer to its goal, so a run makes at most `Distance` calls. */
  lemma {:induction false} RunIsBounded(r: Run, i: nat)
    requires IsRun(r) && i < |r.heads|
    ensures i + r.heads[i].Distance() <= First(r).Distance()
    ensures 0 <= r.heads[i].Distance()
    ensures i <= First(r).outdated + Max(First(r).update - First(r).desired, First(r).desired - First(r).update)
  {
    HeadIsSane(r, i);
    if i > 0 {
      RunIsBounded(r, i - 1);
      HeadIsSane(r, i - 1);
      assert Legal(r.heads[i - 1], r.steps[i - 1]);
      StepKeepsSane(r.heads[i - 1], r.steps[i - 1]);
    }
  }

  /** The side of the maximum a run is on never changes, and the surge ceiling holds throughout. */
  lemma {:induction false} RunKeepsSide(r: Run, i: nat, j: nat)
    requires IsRun(r) && i <= j < |r.heads|
    ensures r.heads[i].Actual() <= r.heads[i].Maximum() ==> r.heads[j].Actual() <= r.heads[j].Maximum()
    ensures r.heads[i].Actual() >= r.heads[i].Maximum() ==> r.heads[j].Actual() >= r.heads[j].Maximum()
    ensures r.heads[j].Actual() <= Max(r.heads[i].Actual(), First(r).desired + First(r).maxSurge)
    decreases j - i
  {
    HeadIsSane(r, j);
    if i < j {
      RunKeepsSide(r, i, j - 1);
      HeadIsSane(r, j - 1);
      assert Legal(r.heads[j - 1], r.steps[j - 1]);
      StepKeepsSide(r.heads[j - 1], r.steps[j - 1]);
    }
  }

  /** An updated instance is scaled in only before any scale-out or update of the same run, and a
      scale-out only before any update or scale-in. */
  lemma PhaseOrder(r: Run, i: nat, j: nat)
    requires IsRun(r) && i < j < |r.steps|
    ensures r.steps[i].call.ScaleOut? || r.steps[i].call.Update? ==> !r.steps[j].call.ScaleInUpdate?
    ensures !r.steps[i].call.ScaleOut? ==> !r.steps[j].call.ScaleOut?
  {
    assert Legal(r.heads[i], r.steps[i]) && Legal(r.heads[j], r.steps[j]);
    RunKeepsSide(r, i, j);
  }

  /** The comments inside the loop: at the maximum with enough updated instances, exactly the
      desired number is updated and every outdated instance is surplus; above the maximum with
      no surplus of updated instances, some instance is outdated. */
  lemma CommentedDerivations(r: Run, i: nat)
    requires IsRun(r) && i < |r.steps|
    ensures var c := r.heads[i];
            && (c.Actual() == c.Maximum() && c.update >= c.desired ==>
                  c.update == c.desired && 0 < c.outdated <= c.maxSurge)
            && (c.Over() && c.update <= c.desired ==> c.outdated > c.maxSurge)
            && (c.Actual() == c.Maximum() && c.update < c.desired ==> c.outdated > c.maxSurge)
  {
    HeadIsSane(r, i);
    assert Legal(r.heads[i], r.steps[i]);
  }

  // ---------------------------------------------------------------- availability floor

  /** min(available at the start, desired - maxUnavailable) */
  function Floor(c: Counters): int { Min(c.Available(), c.Minimum()) }

  predicate KeepsFloor(r: Run)
    requires |r.heads| > 0
  {
    forall i | 0 <= i < |r.heads| :: r.heads[i].Available() >= Floor(First(r))
  }

  /** What the loop has not yet spent while above the maximum. */
  predicate HasSlack(first: Counters, c: Counters)
  {
    c.Over() ==> first.Over() && (c.Available() == first.Available() || c.Available() > first.Minimum())
  }

  lemma FloorAfterStep(first: Counters, c: Counters, s: Step)
    requires c.Sane() && c.SamePolicy(first) && Legal(c, s)
    requires c.Available() >= Floor(first) && HasSlack(first, c)
    ensures var c' := After(c, s);
            || c'.Available() >= Floor(first)
            || (&& Stops(c, s) && c'.Available() == Floor(first) - 1
                && first.Over() && first.Available() <= first.Minimum())
    ensures !Stops(c, s) ==> HasSlack(first, After(c, s))
  {
    StepCost(c, s);
    StepKeepsSide(c, s);
  }

  lemma {:induction false} FloorBeforeLast(r: Run, i: nat)
    requires IsRun(r) && i < |r.heads| && (i == 0 || i < |r.steps|)
    ensures r.heads[i].Available() >= Floor(First(r)) && HasSlack(First(r), r.heads[i])
  {
    if i > 0 {
      FloorBeforeLast(r, i - 1);
      HeadIsSane(r, i - 1);
      assert Legal(r.heads[i - 1], r.steps[i - 1]) && !Stops(r.heads[i - 1], r.steps[i - 1]);
      FloorAfterStep(First(r), r.heads[i - 1], r.steps[i - 1]);
    }
  }

  /** Tracked availability over a run. The only way below the floor is the last step of a run
      that started above the maximum without slack, and it costs exactly one instance. */
  lemma AvailabilityFloor(r: Run, i: nat)
    requires IsRun(r) && i < |r.heads|
    ensures r.heads[i].Available() >= Floor(First(r))
         || (&& i == |r.steps| > 0 && r.heads[i].Available() == Floor(First(r)) - 1
             && First(r).Over() && First(r).Available() <= First(r).Minimum()
             && Stops(r.heads[i - 1], r.steps[i - 1]))
  {
    if 0 < i == |r.steps| {
      FloorBeforeLast(r, i - 1);
      HeadIsSane(r, i - 1);
      assert Legal(r.heads[i - 1], r.steps[i - 1]);
      FloorAfterStep(First(r), r.heads[i - 1], r.steps[i - 1]);
    } else {
      FloorBeforeLast(r, i);
    }
  }

  /** Where every run keeps the floor: at or below the maximum, with slack, or when all that
      would be scaled in is outdated and already down. */
  predicate FloorIsSafe(c: Counters)
  {
    || c.Converged()
    || c.Actual() <= c.Maximum()
    || c.Available() > c.Minimum()
    || (c.update <= c.desired && c.unavailableOutdated == c.outdated)
  }

  lemma {:induction false} DownOutdatedCostNothing(r: Run, i: nat)
    requires IsRun(r) && i < |r.heads|
    requires First(r).Over() && First(r).update <= First(r).desired
    requires First(r).unavailableOutdated == First(r).outdated
    ensures r.heads[i].update <= r.heads[i].desired && r.heads[i].unavailableOutdated == r.heads[i].outdated
    ensures r.heads[i].Available() >= Floor(First(r))
  {
    HeadIsSane(r, i);
    if i > 0 {
      DownOutdatedCostNothing(r, i - 1);
      HeadIsSane(r, i - 1);
      assert Legal(r.heads[i - 1], r.steps[i - 1]);
      StepCost(r.heads[i - 1], r.steps[i - 1]);
    }
  }

  /** The floor holds of all runs from `c` exactly when `FloorIsSafe(c)`. */
  lemma FloorExactly(c: Counters)
    requires c.Sane()
    ensures (forall r: Run | IsRun(r) && First(r) == c :: KeepsFloor(r)) <==> FloorIsSafe(c)
  {
    if FloorIsSafe(c) {
      forall r: Run | IsRun(r) && First(r) == c ensures KeepsFloor(r) {
        forall i | 0 <= i < |r.heads| ensures r.heads[i].Available() >= Floor(c) {
          AvailabilityFloor(r, i);
          if !c.Converged() && c.Over() && c.Available() <= c.Minimum() {
            DownOutdatedCostNothing(r, i);
          }
        }
      }
    } else {
      var s := Step(Decide(c).call, false);
      var r := Run([c, After(c, s)], [s]);
      assert IsRun(r) && First(r) == c;
      assert r.heads[1].Available() < Floor(c);
      assert !KeepsFloor(r);
    }
  }

  // ---------------------------------------------------------------- a floor for careful actors

  /** Above the maximum, the actor takes what is counted as unavailable first. */
  predicate Careful(c: Counters, s: Step)
  {
    c.Over() && !s.unavailable ==>
      && (s.call == ScaleInUpdate ==> c.unavailableUpdate <= 0)
      && (s.call == ScaleInOutdated ==> c.unavailableOutdated <= 0)
  }

  predicate CarefulRun(r: Run)
    requires IsRun(r)
  {
    forall i | 0 <= i < |r.steps| :: Careful(r.heads[i], r.steps[i])
  }

  /** How many outdated instances go before the group is down to its maximum. */
  function Surplus(c: Counters): int { Min(c.update, c.desired) + c.outdated - c.desired - c.maxSurge }

  /** Where every careful run keeps the floor: as before, or when enough outdated instances are down. */
  predicate CarefulFloorIsSafe(c: Counters)
  {
    c.Converged() || !c.Over() || c.Available() > c.Minimum() || c.unavailableOutdated >= Surplus(c)
  }

  /** A careful step above the maximum without slack costs nothing while enough is down. */
  lemma CarefulStep(c: Counters, s: Step)
    requires c.Sane() && Legal(c, s) && Careful(c, s)
    requires c.Over() && c.Available() <= c.Minimum() && c.unavailableOutdated >= Surplus(c)
    ensures After(c, s).Available() == c.Available()
    ensures After(c, s).Over() ==> After(c, s).unavailableOutdated >= Surplus(After(c, s))
  {
  }

  lemma {:induction false} CarefulHeads(r: Run, i: nat)
    requires IsRun(r) && CarefulRun(r) && i < |r.heads|
    requires First(r).Over() && First(r).Available() <= First(r).Minimum()
    requires First(r).unavailableOutdated >= Surplus(First(r))
    ensures r.heads[i].Over() || (i > 0 && r.heads[i - 1].Over()) ==> r.heads[i].Available() == First(r).Available()
    ensures r.heads[i].Over() ==> r.heads[i].unavailableOutdated >= Surplus(r.heads[i])
  {
    if i > 0 {
      CarefulHeads(r, i - 1);
      HeadIsSane(r, i - 1);
      assert Legal(r.heads[i - 1], r.steps[i - 1]) && Careful(r.heads[i - 1], r.steps[i - 1]);
      StepKeepsSide(r.heads[i - 1], r.steps[i - 1]);
      if r.heads[i - 1].Over() { CarefulStep(r.heads[i - 1], r.steps[i - 1]); }
    }
  }

  lemma CarefulRunKeepsFloor(r: Run)
    requires IsRun(r) && CarefulRun(r) && CarefulFloorIsSafe(First(r))
    ensures KeepsFloor(r)
  {
    forall i | 0 <= i < |r.heads| ensures r.heads[i].Available() >= Floor(First(r)) {
      AvailabilityFloor(r, i);
      if First(r).Over() && First(r).Available() <= First(r).Minimum() && !First(r).Converged() {
        CarefulHeads(r, i);
      }
    }
  }

  /** A careful run that loses the floor: surplus and stopped instances first, then a running one. */
  lemma {:induction false} CarefulLoss(c: Counters) returns (r: Run)
    requires c.Sane() && 0 <= c.unavailableOutdated && !CarefulFloorIsSafe(c)
    ensures IsRun(r) && CarefulRun(r) && First(r) == c && !KeepsFloor(r)
    decreases c.Distance()
  {
    var s := Step(Decide(c).call, c.update > c.desired || c.unavailableOutdated > 0);
    assert Legal(c, s) && Careful(c, s);
    if s.unavailable {
      StepKeepsSane(c, s);
      var rest := CarefulLoss(After(c, s));
      r := Prepended(c, s, rest);
    } else {
      r := Run([c, After(c, s)], [s]);
      assert IsRun(r) && r.heads[1].Available() < Floor(c);
    }
  }

  lemma Prepended(c: Counters, s: Step, rest: Run) returns (r: Run)
    requires c.Sane() && Legal(c, s) && Careful(c, s) && s.unavailable
    requires IsRun(rest) && CarefulRun(rest) && First(rest) == After(c, s) && !KeepsFloor(rest)
    requires After(c, s).Available() == c.Available() && After(c, s).Minimum() == c.Minimum()
    ensures IsRun(r) && CarefulRun(r) && First(r) == c && !KeepsFloor(r)
  {
    hide Legal, After, Stops, Careful;
    r := Run([c] + rest.heads, [s] + rest.steps);
    assert forall i | 0 < i < |r.heads| :: r.heads[i] == rest.heads[i - 1];
    assert forall i | 0 < i < |r.steps| :: r.steps[i] == rest.steps[i - 1];
    assert !Stops(c, s) by { UnavailableDoesNotStop(c, s); }
    var i :| 0 <= i < |rest.heads| && rest.heads[i].Available() < Floor(First(rest));
    assert r.heads[i + 1].Available() < Floor(c);
  }

  lemma UnavailableDoesNotStop(c: Counters, s: Step)
    requires s.unavailable
    ensures !Stops(c, s)
  {
  }

  /** With an actor that takes unavailable instances first, the floor holds of all runs exactly if the
      start has converged, is at or below the maximum, has slack, or has enough outdated instances down. */
  lemma CarefulFloorExactly(c: Counters)
    requires c.Sane() && 0 <= c.unavailableOutdated
    ensures (forall r: Run | IsRun(r) && CarefulRun(r) && First(r) == c :: KeepsFloor(r)) <==> CarefulFloorIsSafe(c)
  {
    if CarefulFloorIsSafe(c) {
      forall r: Run | IsRun(r) && CarefulRun(r) && First(r) == c ensures KeepsFloor(r) { CarefulRunKeepsFloor(r); }
    } else {
      var r := CarefulLoss(c);
    }
  }

  /** One updated instance that is unavailable and two outdated ones that run, where two are desired. */
  predicate Crowded(c: Counters)
  {
    && c.update == 2 && c.outdated == 2 && c.desired == 2 && c.unavailableUpdate == 2 && c.unavailableOutdated == 0
    && c.maxSurge == 1 && c.maxUnavailable == 0
  }

  lemma CrowdedStep(c: Counters, s: Step)
    requires Crowded(c) && s.call == ScaleInOutdated && !s.unavailable
    ensures !c.Converged() && Decide(c) == Act(ScaleInOutdated) && Careful(c, s)
    ensures c.Available() == Floor(c) == 2
  {
  }

  lemma RunningCostsOne(c: Counters, s: Step)
    requires s.call == ScaleInOutdated && !s.unavailable
    ensures After(c, s).Available() == c.Available() - 1
  {
  }

  // ---------------------------------------------------------------- liveness

  /** With some surge or unavailability allowed and every updated instance available, a group
      that has not converged always gets an actor call. */
  lemma AlwaysActs(c: Counters)
    requires c.Sane() && !c.Converged()
    requires c.unavailableUpdate == 0 && c.maxSurge + c.maxUnavailable >= 1
    ensures Decide(c).Act?
  {
  }

  /** The state one reconcile hands to the next: updated instances have become available;
      outdated ones may have gone up, down, or away. */
  predicate Settles(before: Counters, after: Counters)
  {
    && after.Sane() && after.SamePolicy(before)
    && after.update == before.update && after.unavailableUpdate == 0
    && after.outdated <= before.outdated
  }

  /** A sequence of reconciles, each a finished run from where the previous one settled. */
  predicate IsRollout(rs: seq<Run>)
  {
    && (forall i | 0 <= i < |rs| :: IsRun(rs[i]) && Finished(rs[i]))
    && (|rs| > 0 ==> First(rs[0]).unavailableUpdate == 0)
    && (forall i | 0 <= i < |rs| - 1 :: Settles(Last(rs[i]), First(rs[i + 1])))
  }

  lemma ReconcileMakesProgress(r: Run)
    requires IsRun(r) && Finished(r)
    requires First(r).unavailableUpdate == 0 && First(r).maxSurge + First(r).maxUnavailable >= 1
    ensures First(r).Converged() ==> r.steps == [] && CleansUp(r)
    ensures !First(r).Converged() ==> r.steps != [] && Last(r).Distance() < First(r).Distance()
  {
    RunIsBounded(r, |r.steps|);
    if !First(r).Converged() {
      AlwaysActs(First(r));
    }
  }

  lemma {:induction false} RolloutMakesProgress(rs: seq<Run>, i: nat)
    requires IsRollout(rs) && i < |rs|
    requires First(rs[0]).maxSurge + First(rs[0]).maxUnavailable >= 1
    ensures First(rs[i]).Sane() && First(rs[i]).SamePolicy(First(rs[0])) && First(rs[i]).unavailableUpdate == 0
    ensures First(rs[i]).Converged() || i + First(rs[i]).Distance() <= First(rs[0]).Distance()
  {
    if i > 0 {
      RolloutMakesProgress(rs, i - 1);
      var r := rs[i - 1];
      assert Settles(Last(r), First(rs[i]));
      ReconcileMakesProgress(r);
      HeadIsSane(r, |r.steps|);
      RunIsBounded(r, |r.steps|);
      HeadIsSane(rs[i], 0);
    }
  }

  /** A rollout converges within outdated + |update - desired| reconciles, and every reconcile
      after that only cleans up. */
  lemma RolloutConverges(rs: seq<Run>, i: nat)
    requires IsRollout(rs) && i < |rs|
    requires First(rs[0]).maxSurge + First(rs[0]).maxUnavailable >= 1
    requires i >= First(rs[0]).Distance()
    ensures First(rs[i]).Converged() && rs[i].steps == [] && CleansUp(rs[i])
  {
    RolloutMakesProgress(rs, i);
    HeadIsSane(rs[i], 0);
    ReconcileMakesProgress(rs[i]);
  }

  /** The policy allows neither surge nor unavailability, nothing outdated is down, and some
      instance is still to be updated. */
  predicate Stuck(c: Counters)
  {
    && c.maxSurge == 0 && c.maxUnavailable == 0
    && c.unavailableOutdated == 0 && c.update < c.desired == c.Actual()
  }

  lemma StuckExactly(c: Counters)
    requires c.Sane() && !c.Converged() && c.unavailableUpdate == 0
    ensures Decide(c).Wait? <==> Stuck(c)
  {
  }

  predicate Continues(before: Run, after: Run)
  {
    IsRun(before) && IsRun(after) && First(after) == Last(before)
  }

  /** Reconciles between which nothing changes by itself. */
  predicate Steady(rs: seq<Run>)
  {
    forall i | 0 <= i < |rs| - 1 :: Continues(rs[i], rs[i + 1])
  }

  lemma FirstIsLegal(r: Run)
    requires IsRun(r) && r.steps != []
    ensures Decide(First(r)).Act?
  {
    assert Legal(r.heads[0], r.steps[0]);
  }

  lemma WaitingMakesNoCall(r: Run)
    requires IsRun(r) && Decide(First(r)).Wait?
    ensures r.steps == []
  {
    hide IsRun, Decide;
    if r.steps != [] { FirstIsLegal(r); }
  }

  /** A group left to itself waits for ever exactly if it is stuck: then no reconcile ever calls the
      actor, and otherwise the first one does. */
  lemma {:induction false} StuckForever(rs: seq<Run>, i: nat)
    requires IsRollout(rs) && Steady(rs) && i < |rs| && !First(rs[0]).Converged()
    ensures Stuck(First(rs[0])) ==> rs[i].steps == [] && First(rs[i]) == First(rs[0]) && !CleansUp(rs[i])
    ensures !Stuck(First(rs[0])) ==> rs[0].steps != []
  {
    HeadIsSane(rs[0], 0);
    StuckExactly(First(rs[0]));
    if Stuck(First(rs[0])) {
      if i > 0 {
        StuckForever(rs, i - 1);
        assert Continues(rs[i - 1], rs[i]);
      }
      assert First(rs[i]) == First(rs[0]);
      WaitingMakesNoCall(rs[i]);
    }
  }
}
