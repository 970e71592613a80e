/** The fields of an instance CR that the updater reads, and the status tests over them. */
module Instances {

  import opened Wrappers

  datatype Status = True | False | Unknown

  const REASON_NOT_EVICTED := "NotEvicted"
  const ANNO_DEFER_DELETE := "core.pingcap.com/defer-delete"

  /** Times are nanoseconds; `lastTransition == 0` is the zero time. */
  datatype Condition = Condition(status: Status, observedGeneration: int, reason: string, lastTransition: int)

  // Priorities are parsed as int64 and negative ones are invalid.
  type PriorityValue = p: int | 0 <= p < 0x8000_0000_0000_0000

  datatype Instance = Instance(
    name: string,
    uid: string,
    resourceVersion: string,
    topology: string,
    isTiKV: bool,
    deleting: bool,
    created: int,
    generation: int,
    observedGeneration: int,
    updateRevision: string,
    currentRevision: string,
    annotations: set<string>,
    priority: Option<PriorityValue>,
    offline: bool,
    supportsOffline: bool,
    ready: Option<Condition>,
    running: Option<Condition>,
    leadersEvicted: Option<Condition>,
    storeOfflined: Option<Condition>,
    capacityExceedsRequest: Option<Condition>)
  {
    predicate Observed(c: Option<Condition>, status: Status) {
      c.Some? && c.value.observedGeneration == generation && c.value.status == status
    }

    predicate IsReady() { Observed(ready, True) }

    predicate IsNotRunning() { Observed(running, False) }

    predicate IsUpToDate() { observedGeneration == generation && updateRevision == currentRevision }

    predicate IsStoreOfflined() { storeOfflined.Some? && storeOfflined.value.status == True }

    predicate IsDeleting() { deleting || ANNO_DEFER_DELETE in annotations || offline || IsStoreOfflined() }

    /** Whether the instance is available at `now`, and how long a timer still has to run. */
    function IsAvailable(minReadySeconds: int, now: int): (bool, int) {
      if !IsReady() then (false, 0)
      else
        var (stable, remain) := IsConditionStable(ready.value, minReadySeconds, now);
        if !stable || !isTiKV then (stable, remain)
        else if !Observed(leadersEvicted, False) || leadersEvicted.value.reason != REASON_NOT_EVICTED then (false, 0)
        else IsConditionStable(leadersEvicted.value, minReadySeconds, now)
    }

    /** What the updater counts: available for long enough, with everything it manages up to date. */
    predicate Serves(minReadySeconds: int, now: int) {
      IsAvailable(minReadySeconds, now).0 && IsUpToDate()
    }
  }

  function IsConditionStable(c: Condition, minReadySeconds: int, now: int): (bool, int)
  {
    if minReadySeconds <= 0 then (true, 0)
    else if c.lastTransition == 0 then (false, 0)
    else
      var remain := c.lastTransition + minReadySeconds * 1_000_000_000 - now;
      if remain > 0 then (false, remain) else (true, 0)
  }

  /** The longest time that some instance which is ready but not yet available still has to wait. */
  method RetryIfReadyButNotAvailable(all: seq<Instance>, minReadySeconds: int, now: int) returns (retry: int)
    ensures forall i | i in all && !i.IsAvailable(minReadySeconds, now).0 ::
              i.IsAvailable(minReadySeconds, now).1 <= retry
    ensures retry == 0 ||
            exists i :: i in all && !i.IsAvailable(minReadySeconds, now).0
              && i.IsAvailable(minReadySeconds, now).1 == retry > 0
  {
    retry := 0;
    for k := 0 to |all|
      invariant forall i | i in all[..k] && !i.IsAvailable(minReadySeconds, now).0 ::
                  i.IsAvailable(minReadySeconds, now).1 <= retry
      invariant retry == 0 || exists i :: i in all && !i.IsAvailable(minReadySeconds, now).0
                                          && i.IsAvailable(minReadySeconds, now).1 == retry > 0
    {
      hide Instance.IsAvailable;
      assert all[..k + 1] == all[..k] + [all[k]] && all[k] in all;
      var available, after := all[k].IsAvailable(minReadySeconds, now).0, all[k].IsAvailable(minReadySeconds, now).1;
      if available {
        continue;
      }
      if after > retry {
        retry := after;
      }
    }
    assert all[..|all|] == all;
  }

  /** Every condition that has to last has a time from which it does. */
  predicate Dated(i: Instance, minReadySeconds: int)
  {
    && i.IsReady() && (minReadySeconds <= 0 || i.ready.value.lastTransition != 0)
    && (i.isTiKV ==>
          && i.Observed(i.leadersEvicted, False) && i.leadersEvicted.value.reason == REASON_NOT_EVICTED
          && (minReadySeconds <= 0 || i.leadersEvicted.value.lastTransition != 0))
  }

  /** Where nothing is left to wait for, what is ready is available exactly if its conditions are dated. */
  lemma NothingToWaitFor(i: Instance, minReadySeconds: int, before: int, now: int)
    requires before <= now && i.IsReady()
    requires i.IsAvailable(minReadySeconds, before).0 || i.IsAvailable(minReadySeconds, before).1 <= 0
    ensures i.IsAvailable(minReadySeconds, now).0 <==> Dated(i, minReadySeconds)
  {
    RemainingTime(i, minReadySeconds, before, now);
  }

  /** A condition that has lasted for the time asked for. */
  predicate Lasted(c: Condition, minReadySeconds: int, now: int)
  {
    minReadySeconds <= 0 || (c.lastTransition != 0 && c.lastTransition + minReadySeconds * 1_000_000_000 <= now)
  }

  /** What a TiKV needs besides: its leaders are back, and have been for as long. */
  predicate LeadersLasted(i: Instance, minReadySeconds: int, now: int)
  {
    && i.Observed(i.leadersEvicted, False) && i.leadersEvicted.value.reason == REASON_NOT_EVICTED
    && Lasted(i.leadersEvicted.value, minReadySeconds, now)
  }

  /** While nothing about the instance changes, it is unavailable until the reported time has
      passed, what is available stays available, and what is available is exactly what every timer
      has run for: one for readiness and, for a TiKV, one for its leaders. */
  lemma RemainingTime(i: Instance, minReadySeconds: int, now: int, later: int)
    requires now <= later
    ensures var (available, remain) := i.IsAvailable(minReadySeconds, now);
            && (available <==>
                  && i.IsReady() && Lasted(i.ready.value, minReadySeconds, now)
                  && (i.isTiKV ==> LeadersLasted(i, minReadySeconds, now)))
            && (available ==> i.IsAvailable(minReadySeconds, later).0)
            && (!available && remain > 0 ==>
                  && (later < now + remain ==> !i.IsAvailable(minReadySeconds, later).0)
                  && (now + remain <= later ==>
                        (i.IsAvailable(minReadySeconds, later).0 <==>
                           !i.isTiKV || LeadersLasted(i, minReadySeconds, later))))
            && (!available && remain == 0 ==> !i.IsAvailable(minReadySeconds, later).0)
            && 0 <= remain
  {
  }

  /** What an instance says of itself counts only if it was observed for its current generation. */
  lemma ConditionsExactly(i: Instance)
    ensures i.IsReady() <==>
              i.ready.Some? && i.ready.value.status == True && i.ready.value.observedGeneration == i.generation
    ensures i.IsNotRunning() <==>
              i.running.Some? && i.running.value.status == False && i.running.value.observedGeneration == i.generation
    ensures i.IsUpToDate() <==> i.observedGeneration == i.generation && i.updateRevision == i.currentRevision
    ensures i.IsStoreOfflined() <==> i.storeOfflined.Some? && i.storeOfflined.value.status == True
  {
  }

  /** An instance serves exactly if its observed state is that of its current spec and revision, it is ready, and
      it has been for long enough; a TiKV also needs its leaders back for as long. */
  lemma ServesExactly(i: Instance, minReadySeconds: int, now: int)
    ensures i.Serves(minReadySeconds, now) <==>
              && i.observedGeneration == i.generation && i.updateRevision == i.currentRevision
              && i.ready.Some? && i.ready.value.status == True && i.ready.value.observedGeneration == i.generation
              && Lasted(i.ready.value, minReadySeconds, now)
              && (i.isTiKV ==>
                    && i.leadersEvicted.Some? && i.leadersEvicted.value.status == False
                    && i.leadersEvicted.value.observedGeneration == i.generation
                    && i.leadersEvicted.value.reason == "NotEvicted"
                    && Lasted(i.leadersEvicted.value, minReadySeconds, now))
  {
    RemainingTime(i, minReadySeconds, now, now);
  }
}
