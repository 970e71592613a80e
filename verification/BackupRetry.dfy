/** The retry log of a failed backup: numbered records with exponentially growing delays, bounded in
    number and in time. Instants and durations are in nanoseconds. */
module BackupRetry {
  import opened Wrappers

  const SECOND: int := 1_000_000_000
  const TWO_63: int := 0x8000_0000_0000_0000
  const TWO_64: int := 0x1_0000_0000_0000_0000

  datatype ConditionType = Failed | RetryTheFailed | Restart | Other(name: string)
  datatype Message =
    | ExceedsTimes(max: int)
    | TimesOut
    | Reasons(reason: string, original: string)
    | Triggered(at: int)
    | Text(text: string)
  datatype Condition = Condition(kind: ConditionType, holds: bool, reason: string, message: Message, transition: int)

  datatype Record = Record(num: int, detected: int, expected: int, reason: string, original: string, real_: Option<int>)

  /** Durations are `None` if their text does not parse. */
  datatype Policy = Policy(maxTimes: int, minDuration: Option<int>, timeout: Option<int>)

  // ---------------------------------------------------------------- machine arithmetic

  predicate Int64(x: int) { -TWO_63 <= x < TWO_63 }

  function Pow2(k: nat): int { if k == 0 then 1 else 2 * Pow2(k - 1) }

  /** The value of the low 64 bits as a signed number. */
  function Wrap(x: int): (r: int)
    ensures Int64(r)
  {
    (x + TWO_63) % TWO_64 - TWO_63
  }

  function ShiftLeft(x: int, k: nat): int { if k >= 64 then 0 else Wrap(x * Pow2(k)) }

  /** Division that rounds toward zero. */
  function Quotient(x: int, y: int): int
    requires y > 0
  {
    if x >= 0 then x / y else -((-x) / y)
  }

  lemma {:induction false} Pow2Grows(j: nat, k: nat)
    requires j <= k
    ensures 1 <= Pow2(j) <= Pow2(k)
  {
    if k == 0 {
    } else if j == k {
      Pow2Grows(j - 1, j - 1);
    } else {
      Pow2Grows(j, k - 1);
    }
  }

  lemma ScaleGrows(x: int, a: int, b: int)
    requires 1 <= a <= b
    ensures x >= 0 ==> x * a <= x * b
    ensures x <= 0 ==> x * b <= x * a
    ensures x > 0 ==> x * a >= a
    ensures x < 0 ==> x * a <= -a
  {
  }

  lemma WrapExactly(x: int)
    ensures Wrap(x) == x <==> Int64(x)
  {
  }

  lemma Pow2Of64()
    ensures Pow2(64) == TWO_64
  {
    assert Pow2(8) == 0x100;
    Pow2Adds(8, 8);
    Pow2Adds(16, 16);
    Pow2Adds(32, 32);
  }

  lemma {:induction false} Pow2Adds(j: nat, k: nat)
    ensures Pow2(j + k) == Pow2(j) * Pow2(k)
  {
    if k > 0 { Pow2Adds(j, k - 1); }
  }

  /** The shift multiplies by a power of two exactly when the product fits. */
  lemma ShiftExactly(x: int, k: nat)
    ensures ShiftLeft(x, k) == x * Pow2(k) <==> Int64(x * Pow2(k))
  {
    if k < 64 {
      WrapExactly(x * Pow2(k));
    } else if x != 0 {
      Pow2Of64();
      Pow2Grows(64, k);
      ScaleGrows(x, Pow2(k), Pow2(k));
    }
  }

  lemma SmallerFits(x: int, j: nat, k: nat)
    requires j <= k && Int64(x * Pow2(k))
    ensures Int64(x * Pow2(j))
  {
    Pow2Grows(j, k);
    ScaleGrows(x, Pow2(j), Pow2(k));
    ScaleGrows(x, 1, Pow2(j));
  }

  // ---------------------------------------------------------------- limits

  function Unix(t: int): int { t / SECOND }

  predicate Pending(records: seq<Record>) { records != [] && records[|records| - 1].real_.None? }

  predicate ExceedsRetryTimes(p: Policy, records: seq<Record>)
  {
    records != [] && records[|records| - 1].num >= p.maxTimes
  }

  /** `None` if the timeout does not parse. */
  function RetryTimesOut(p: Policy, records: seq<Record>, now: int): Option<bool>
  {
    if records == [] then Some(false)
    else if p.timeout.None? then None
    else Some(Unix(now) - Unix(records[0].detected) > Quotient(p.timeout.value, SECOND))
  }

  function Delay(p: Policy, num: int): Option<int>
    requires num >= 1
  {
    if p.minDuration.None? then None else Some(ShiftLeft(p.minDuration.value, num - 1))
  }

  // ---------------------------------------------------------------- the log as a value

  datatype Call = Retry(reason: string, original: string, now: int) | PostRetry(now: int)

  /** A retry is accepted: nothing is pending, the limits allow it and the durations parse. */
  predicate Accepts(p: Policy, records: seq<Record>, now: int)
  {
    && !Pending(records) && !ExceedsRetryTimes(p, records)
    && RetryTimesOut(p, records, now) == Some(false) && p.minDuration.Some?
  }

  function NewRecord(p: Policy, records: seq<Record>, reason: string, original: string, now: int): Record
    requires p.minDuration.Some?
  {
    var num := |records| + 1;
    Record(num, now, now + Delay(p, num).value, reason, original, None)
  }

  function After(p: Policy, records: seq<Record>, c: Call): seq<Record>
  {
    match c
    case Retry(reason, original, now) =>
      if Accepts(p, records, now) then records + [NewRecord(p, records, reason, original, now)] else records
    case PostRetry(now) =>
      if Pending(records) then records[|records| - 1 := records[|records| - 1].(real_ := Some(now))] else records
  }

  function LogAfter(p: Policy, calls: seq<Call>): seq<Record>
  {
    if calls == [] then [] else After(p, LogAfter(p, calls[..|calls| - 1]), calls[|calls| - 1])
  }

  /** Records are numbered from one, all but the last were triggered, there are at most as many as
      allowed (one is always), each later failure was detected in time, and each delay is the
      shifted minimum. */
  predicate Sound(p: Policy, records: seq<Record>)
  {
    && (records == [] || (|records| <= 1 || |records| <= p.maxTimes))
    && (forall i | 0 <= i < |records| :: records[i].num == i + 1)
    && (forall i | 0 <= i < |records| - 1 :: records[i].real_.Some?)
    && (records != [] ==> p.minDuration.Some?)
    && (forall i | 0 <= i < |records| :: records[i].expected == records[i].detected + ShiftLeft(p.minDuration.value, i))
    && (|records| > 1 ==> p.timeout.Some?)
    && forall i | 1 <= i < |records| ::
         Unix(records[i].detected) - Unix(records[0].detected) <= Quotient(p.timeout.value, SECOND)
  }

  lemma CallKeepsSound(p: Policy, records: seq<Record>, c: Call)
    requires Sound(p, records)
    ensures Sound(p, After(p, records, c))
  {
    hide ShiftLeft, Unix, Quotient;
  }

  /** A retry is accepted exactly if its delay parses and it is the first, or the one before was triggered, fewer
      than the maximum were made, and no more whole seconds than the timeout has lie after the first failure. */
  lemma AcceptedExactly(p: Policy, records: seq<Record>, now: int)
    requires Sound(p, records)
    ensures Accepts(p, records, now) <==>
              && p.minDuration.Some?
              && (records == []
                  || (&& records[|records| - 1].real_.Some? && |records| < p.maxTimes && p.timeout.Some?
                      && var t := p.timeout.value;
                         now / 1_000_000_000 - records[0].detected / 1_000_000_000 <=
                           if t >= 0 then t / 1_000_000_000 else -(-t / 1_000_000_000)))
  {
  }

  /** An accepted retry is recorded as the next one, due after its delay and not yet triggered; any other changes
      nothing. Triggering marks the pending one with its time, and nothing else. */
  lemma CallsInFields(p: Policy, records: seq<Record>, reason: string, original: string, now: int)
    requires Sound(p, records)
    ensures var next := After(p, records, Retry(reason, original, now));
            if Accepts(p, records, now) then
              && |next| == |records| + 1 && next[..|records|] == records
              && var r := next[|records|];
                 && r.num == |records| + 1 && r.detected == now && r.reason == reason && r.original == original
                 && r.expected == now + ShiftLeft(p.minDuration.value, |records|) && r.real_.None?
            else next == records
    ensures var next := After(p, records, PostRetry(now));
            && |next| == |records|
            && forall i | 0 <= i < |records| ::
                 next[i] == if i == |records| - 1 && records[i].real_.None? then records[i].(real_ := Some(now))
                            else records[i]
  {
    hide ShiftLeft, Unix, Quotient;
  }

  /** Whatever the calls, the log stays sound. */
  lemma {:induction false} LogIsSound(p: Policy, calls: seq<Call>)
    ensures Sound(p, LogAfter(p, calls))
  {
    hide After;
    if calls != [] {
      LogIsSound(p, calls[..|calls| - 1]);
      CallKeepsSound(p, LogAfter(p, calls[..|calls| - 1]), calls[|calls| - 1]);
    }
  }

  function MaxRecords(p: Policy): int { if p.maxTimes < 1 then 1 else p.maxTimes }

  /** Delays double from the minimum, without overflow, in every log of a policy whose largest
      possible delay fits in 64 bits. */
  lemma DelaysDouble(p: Policy, calls: seq<Call>, i: nat)
    requires i < |LogAfter(p, calls)|
    requires p.minDuration.Some? && Int64(p.minDuration.value * Pow2(MaxRecords(p) - 1))
    ensures |LogAfter(p, calls)| <= MaxRecords(p)
    ensures LogAfter(p, calls)[i].expected - LogAfter(p, calls)[i].detected == p.minDuration.value * Pow2(i)
  {
    hide ShiftLeft, LogAfter, Pow2;
    LogIsSound(p, calls);
    SmallerFits(p.minDuration.value, i, MaxRecords(p) - 1);
    ShiftExactly(p.minDuration.value, i);
  }

  /** A single record's delay is exact exactly if it fits. */
  lemma DelayIsExactExactly(p: Policy, calls: seq<Call>, i: nat)
    requires i < |LogAfter(p, calls)|
    ensures p.minDuration.Some?
    ensures LogAfter(p, calls)[i].expected - LogAfter(p, calls)[i].detected == p.minDuration.value * Pow2(i)
       <==> Int64(p.minDuration.value * Pow2(i))
  {
    hide ShiftLeft, LogAfter, Pow2;
    LogIsSound(p, calls);
    ShiftExactly(p.minDuration.value, i);
  }

  /** Records are never dropped, reordered or renumbered; only a pending one is completed. */
  lemma {:induction false} LogOnlyGrows(p: Policy, calls: seq<Call>, n: nat, i: nat)
    requires n <= |calls| && i < |LogAfter(p, calls[..n])|
    ensures i < |LogAfter(p, calls)|
    ensures LogAfter(p, calls)[i].(real_ := None) == LogAfter(p, calls[..n])[i].(real_ := None)
    ensures LogAfter(p, calls[..n])[i].real_.Some? ==> LogAfter(p, calls)[i] == LogAfter(p, calls[..n])[i]
  {
    if n < |calls| {
      var m := |calls| - 1;
      assert calls[..m][..n] == calls[..n];
      LogOnlyGrows(p, calls[..m], n, i);
    } else {
      assert calls[..n] == calls;
    }
  }

  // ---------------------------------------------------------------- conditions

  predicate OnePerKind(cs: seq<Condition>)
  {
    forall i, j | 0 <= i < j < |cs| :: cs[i].kind != cs[j].kind
  }

  ghost predicate Holds(cs: seq<Condition>, kind: ConditionType, reason: string, message: Message)
  {
    exists i | 0 <= i < |cs| :: cs[i].kind == kind && cs[i].holds && cs[i].reason == reason && cs[i].message == message
  }

  class Backup {
    const policy: Policy
    var records: seq<Record>
    var phase: ConditionType
    var conditions: seq<Condition>

    ghost predicate Valid()
      reads this
    {
      Sound(policy, records) && OnePerKind(conditions)
    }

    constructor (policy: Policy, phase: ConditionType)
      ensures Valid() && this.policy == policy && this.phase == phase && records == [] && conditions == []
    {
      this.policy, this.phase, this.records, this.conditions := policy, phase, [], [];
    }

    method GetBackupCondition(kind: ConditionType) returns (index: int)
      ensures -1 <= index < |conditions|
      ensures index >= 0 ==> conditions[index].kind == kind
      ensures index < 0 ==> forall i | 0 <= i < |conditions| :: conditions[i].kind != kind
    {
      for i := 0 to |conditions|
        invariant forall k | 0 <= k < i :: conditions[k].kind != kind
      {
        if conditions[i].kind == kind { return i; }
      }
      return -1;
    }

    /** Adds the condition or replaces the one of its kind, and moves to that phase unless it is a
        restart. A condition that neither changes phase nor status keeps its transition time. */
    method UpdateBackupCondition(condition: Condition, clock: int) returns (changed: bool)
      requires OnePerKind(conditions)
      modifies `phase, `conditions
      ensures OnePerKind(conditions)
      ensures phase == if condition.kind.Restart? then old(phase) else condition.kind
      ensures Holds(conditions, condition.kind, condition.reason, condition.message) <== condition.holds
      ensures forall i | 0 <= i < |conditions| && conditions[i].kind == condition.kind ::
                conditions[i] == condition.(transition :=
                  if old(phase) == condition.kind && i < |old(conditions)| && old(conditions)[i].kind == condition.kind
                     && old(conditions)[i].holds == condition.holds
                  then old(conditions)[i].transition else clock)
      ensures forall i | 0 <= i < |old(conditions)| && old(conditions)[i].kind != condition.kind ::
                i < |conditions| && conditions[i] == old(conditions)[i]
      ensures (set i | 0 <= i < |conditions| :: conditions[i].kind) ==
              (set i | 0 <= i < |old(conditions)| :: old(conditions)[i].kind) + {condition.kind}
      ensures !changed ==> conditions == old(conditions) && phase == old(phase)
    {
      var c := condition.(transition := clock);
      var index := GetBackupCondition(c.kind);
      var isDiffPhase := phase != c.kind;
      ghost var was := conditions;
      if isDiffPhase && c.kind != Restart { phase := c.kind; }
      if index < 0 {
        conditions := conditions + [c];
        KindsOf(was, |was|, c, conditions);
        return true;
      }
      var previous := conditions[index];
      if isDiffPhase {
        conditions := conditions[index := c];
        KindsOf(was, index, c, conditions);
        return true;
      }
      if c.holds == previous.holds { c := c.(transition := previous.transition); }
      conditions := conditions[index := c];
      KindsOf(was, index, c, conditions);
      changed := c != previous;
    }

    static lemma KindsOf(was: seq<Condition>, at: nat, c: Condition, next: seq<Condition>)
      requires at <= |was|
      requires next == if at == |was| then was + [c] else was[at := c]
      requires at < |was| ==> was[at].kind == c.kind
      ensures (set i | 0 <= i < |next| :: next[i].kind) == (set i | 0 <= i < |was| :: was[i].kind) + {c.kind}
      ensures at < |next| && next[at] == c
    {
      var ks, ls := set i | 0 <= i < |was| :: was[i].kind, set i | 0 <= i < |next| :: next[i].kind;
      assert next[at] == c;
      forall k | k in ks + {c.kind} ensures k in ls {
        if k == c.kind {
          assert next[at].kind == k;
        } else {
          var i :| 0 <= i < |was| && was[i].kind == k;
          assert next[i].kind == k;
        }
      }
      forall k | k in ls ensures k in ks + {c.kind} {
        var i :| 0 <= i < |next| && next[i].kind == k;
        if i != at { assert was[i].kind == k; }
      }
    }

    /** Records the next retry and gives its delay. Over the limit the backup fails and nothing is
        recorded; a pending retry or a duration that does not parse is an error. */
    method Retry(reason: string, original: string, now: int, clock: int) returns (delay: Option<int>, ok: bool)
      requires Valid()
      modifies this
      ensures Valid()
      ensures records == After(policy, old(records), Call.Retry(reason, original, now))
      ensures delay.Some? <==> Accepts(policy, old(records), now)
      ensures delay.Some? ==>
                && ok && delay == Delay(policy, |records|) && phase == RetryTheFailed
                && Holds(conditions, RetryTheFailed, "RetryFailedBackup", Reasons(reason, original))
      ensures ok && delay.None? ==>
                && (ExceedsRetryTimes(policy, old(records)) || RetryTimesOut(policy, old(records), now) == Some(true))
                && phase == Failed
                && Holds(conditions, Failed, "ExceedRetryLimit",
                         if RetryTimesOut(policy, old(records), now) == Some(true)
                         then TimesOut else ExceedsTimes(policy.maxTimes))
      ensures !ok <==> Pending(old(records)) || RetryTimesOut(policy, old(records), now).None?
                       || (!ExceedsRetryTimes(policy, old(records))
                           && RetryTimesOut(policy, old(records), now) == Some(false)
                           && policy.minDuration.None?)
      ensures !ok ==> phase == old(phase) && conditions == old(conditions)
    {
      hide Sound, Holds, Unix, Quotient, ShiftLeft;
      CallKeepsSound(policy, records, Call.Retry(reason, original, now));
      if Pending(records) { return None, false; }
      var exceedsTimes := ExceedsRetryTimes(policy, records);
      var timesOut := RetryTimesOut(policy, records, now);
      if timesOut.None? { return None, false; }
      if exceedsTimes || timesOut.value {
        var message := if timesOut.value then TimesOut else ExceedsTimes(policy.maxTimes);
        var _ := UpdateBackupCondition(Condition(Failed, true, "ExceedRetryLimit", message, clock), clock);
        return None, true;
      }
      var num := |records| + 1;
      delay := Delay(policy, num);
      if delay.None? { return None, false; }
      records := records + [Record(num, now, now + delay.value, reason, original, None)];
      var due := Condition(RetryTheFailed, true, "RetryFailedBackup", Reasons(reason, original), clock);
      var _ := UpdateBackupCondition(due, clock);
      return delay, true;
    }

    /** Marks the pending retry as triggered; a retry that was triggered before keeps its time. */
    method PostRetry(now: int, clock: int) returns (ok: bool)
      requires Valid()
      modifies this
      ensures Valid() && phase == old(phase)
      ensures ok <==> old(records) != []
      ensures records == After(policy, old(records), Call.PostRetry(now))
      ensures !Pending(records)
      ensures !Pending(old(records)) ==> conditions == old(conditions)
      ensures Pending(old(records)) ==> Holds(conditions, Restart, "RetryTriggered", Triggered(now))
    {
      hide Sound, Holds;
      CallKeepsSound(policy, records, Call.PostRetry(now));
      if |records| == 0 { return false; }
      var last := |records| - 1;
      if records[last].real_.Some? { return true; }
      records := records[last := records[last].(real_ := Some(now))];
      var _ := UpdateBackupCondition(Condition(Restart, true, "RetryTriggered", Triggered(now), clock), clock);
      return true;
    }
  }
}
