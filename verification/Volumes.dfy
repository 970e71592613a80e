/** The revision protocol kept in a claim's annotations: a change of class or size is recorded under
    a new spec revision, carried out, and recorded again under the status revision. The operator may
    stop between any two updates of the claim. */
module Volumes {
  import opened Wrappers

  /** A quantity and its canonical text; comparisons use the value, annotations the text. */
  datatype Quantity = Quantity(value: nat, text: string)

  /** A revision annotation, unset if it is missing or empty. */
  datatype Revision = Unset | Rev(n: int) | Malformed(text: string)

  /** Missing class annotations read as empty. */
  datatype Pvc = Pvc(
    class_: string, request: Quantity, capacity: Quantity,
    specRev: Revision, specClass: string, specSize: Option<string>,
    statusRev: Revision, statusClass: string, statusSize: Option<string>,
    transition: Option<int>)

  datatype Desired = Desired(class_: string, size: Quantity)

  /** What the cluster and the cloud answer. */
  datatype Environment = Environment(expandable: bool, pvKnown: bool, modifierKnown: bool, accepts: bool, minWait: int)

  datatype Phase = Unknown | Pending | Preparing | Modifying | Modified | CannotModify
  datatype Cloud = Refused | InProgress | Applied
  datatype Outcome = Failed | Wait | Done

  // ---------------------------------------------------------------- what a claim records

  function SpecClass(p: Pvc): string { if p.specClass != "" then p.specClass else p.class_ }
  function SpecSize(p: Pvc): string { if p.specSize.Some? then p.specSize.value else p.request.text }
  function StatusClass(p: Pvc): string { if p.statusClass != "" then p.statusClass else p.class_ }
  function StatusSize(p: Pvc): string { if p.statusSize.Some? then p.statusSize.value else p.request.text }

  /** An unset desired class asks for no change. */
  predicate ClassChanged(pre: string, cur: string) { cur != "" && pre != cur }

  predicate SpecDiffers(p: Pvc, d: Desired) { ClassChanged(SpecClass(p), d.class_) || SpecSize(p) != d.size.text }
  predicate StatusDiffers(p: Pvc, d: Desired) { ClassChanged(StatusClass(p), d.class_) || StatusSize(p) != d.size.text }
  predicate RevisionChanged(p: Pvc) { p.specRev != p.statusRev }

  predicate Validates(p: Pvc, desired: Option<Desired>, env: Environment)
  {
    && desired.Some?
    && p.capacity.value <= desired.value.size.value
    && (p.capacity.value < desired.value.size.value ==> env.expandable)
    && (ClassChanged(StatusClass(p), desired.value.class_) ==> env.pvKnown)
    && env.modifierKnown && env.accepts
  }

  predicate Waiting(p: Pvc, env: Environment, now: int)
  {
    p.transition.Some? && now - p.transition.value < env.minWait
  }

  function PhaseOf(p: Pvc, desired: Option<Desired>, env: Environment, now: int): Phase
  {
    if !Validates(p, desired, env) then CannotModify
    else if RevisionChanged(p) then Modifying
    else if !StatusDiffers(p, desired.value) then Modified
    else if Waiting(p, env, now) then Pending
    else Preparing
  }

  // ---------------------------------------------------------------- the updates

  function Upgraded(r: Revision): Revision { if r.Rev? then Rev(r.n + 1) else Rev(1) }

  /** The desired class and size recorded as the new spec. */
  function Prepared(p: Pvc, d: Desired, now: int): Pvc
  {
    p.(specRev := if SpecDiffers(p, d) then Upgraded(p.specRev) else p.specRev,
       specClass := if d.class_ != "" then d.class_ else p.specClass,
       specSize := Some(d.size.text),
       transition := Some(now))
  }

  function Resized(p: Pvc, d: Desired): Pvc { p.(request := d.size) }

  /** The recorded spec copied to the status; a missing size is copied as empty text. */
  function Completed(p: Pvc): Pvc
  {
    p.(statusRev := p.specRev,
       statusClass := if p.specClass != "" then p.specClass else p.statusClass,
       statusSize := Some(if p.specSize.Some? then p.specSize.value else ""))
  }

  /** The claim as a modification can leave it, complete or stopped after any of its updates;
      `asks` says whether it got as far as asking the cloud. */
  predicate Leaves(p: Pvc, phase: Phase, d: Desired, now: int, q: Pvc, asks: bool, r: Outcome)
  {
    if phase.Preparing? || phase.Modifying? then
      var base := if phase.Preparing? then Prepared(p, d, now) else p;
      if r.Done? then asks && q == Completed(base) && base.request.value == base.capacity.value == d.size.value
      else
        || (q == p && !asks)
        || q == base
        || (q == Resized(base, d) && asks && base.request.value != d.size.value)
    else
      q == p && r.Failed? && !asks
  }

  /** What an attempt comes to in which no update fails: the wish is recorded if that is to be done; the cloud
      answers; then the size is asked for; and once the claim has it, the change is recorded as done. */
  predicate Advances(p: Pvc, phase: Phase, d: Desired, now: int, cloud: Cloud, q: Pvc, r: Outcome)
  {
    var base := if phase.Preparing? then Prepared(p, d, now) else p;
    match cloud
    case Refused => q == base && r.Failed?
    case InProgress => q == base && r.Wait?
    case Applied =>
      if base.request.value != d.size.value then q == base.(request := d.size) && r.Wait?
      else if base.capacity.value != d.size.value then q == base && r.Wait?
      else q == Completed(base) && r.Done?
  }

  class ActualVolume {
    const desired: Option<Desired>
    const env: Environment
    var phase: Phase
    /** The claim as this pass knows it, and as the API server holds it. */
    var pvc: Pvc
    var stored: Pvc
    /** What the cloud modifier was last asked for. */
    var asked: Option<Desired>
    /** How many updates have failed. */
    ghost var failures: nat

    constructor (desired: Option<Desired>, env: Environment, current: Pvc, asked: Option<Desired>)
      ensures this.desired == desired && this.env == env && phase == Unknown && pvc == stored == current
      ensures this.asked == asked
    {
      this.desired, this.env, this.phase, this.asked := desired, env, Unknown, asked;
      this.pvc, this.stored, failures := current, current, 0;
    }

    method Update(p: Pvc) returns (ok: bool)
      modifies `stored, `failures
      ensures stored == if ok then p else old(stored)
      ensures failures == old(failures) + if ok then 0 else 1
    {
      ok := *;
      failures := if ok then failures else failures + 1;
      if ok { stored := p; }
    }

    method ShouldModify(now: int) returns (b: bool)
      modifies `phase
      ensures phase == PhaseOf(pvc, desired, env, now)
      ensures b <==> phase.Preparing? || phase.Modifying?
    {
      phase := GetVolumePhase(now);
      b := phase == Preparing || phase == Modifying;
    }

    method GetVolumePhase(now: int) returns (r: Phase)
      ensures r == PhaseOf(pvc, desired, env, now)
    {
      if !Validates(pvc, desired, env) { return CannotModify; }
      if RevisionChanged(pvc) { return Modifying; }
      if !StatusDiffers(pvc, desired.value) { return Modified; }
      if Waiting(pvc, env, now) { return Pending; }
      return Preparing;
    }

    method ModifyPvcAnnoSpec(now: int) returns (ok: bool)
      requires desired.Some? && pvc == stored
      modifies `pvc, `stored, `failures
      ensures ok <==> failures == old(failures)
      ensures pvc == stored == if ok then Prepared(old(pvc), desired.value, now) else old(pvc)
    {
      var p, d := pvc, desired.value;
      var changed := SpecDiffers(p, d);
      if d.class_ != "" { p := p.(specClass := d.class_); }
      p := p.(specSize := Some(d.size.text));
      if changed { p := p.(specRev := Upgraded(p.specRev)); }
      p := p.(transition := Some(now));
      ok := Update(p);
      if ok { pvc := p; }
    }

    /** Whether request and capacity are what is desired; otherwise asks for the size first. */
    method SyncPvcSize() returns (synced: bool, ok: bool)
      requires desired.Some? && pvc == stored
      modifies `pvc, `stored, `failures
      ensures ok <==> failures == old(failures)
      ensures synced <==> old(pvc).request.value == old(pvc).capacity.value == desired.value.size.value
      ensures synced ==> ok
      ensures pvc == stored
      ensures pvc == old(pvc)
                || (pvc == Resized(old(pvc), desired.value) && old(pvc).request.value != desired.value.size.value)
      ensures ok && old(pvc).request.value != desired.value.size.value ==> pvc == Resized(old(pvc), desired.value)
    {
      var size := desired.value.size;
      if pvc.request.value == size.value && pvc.capacity.value == size.value { return true, true; }
      if pvc.request.value == size.value { return false, true; }
      var p := pvc.(request := size);
      ok := Update(p);
      if ok { pvc := p; }
      synced := false;
    }

    method ModifyPvcAnnoStatus() returns (ok: bool)
      requires pvc == stored
      modifies `pvc, `stored, `failures
      ensures ok <==> failures == old(failures)
      ensures pvc == stored == if ok then Completed(old(pvc)) else old(pvc)
    {
      var p := pvc.(statusRev := pvc.specRev);
      if p.specClass != "" { p := p.(statusClass := p.specClass); }
      p := p.(statusSize := Some(if p.specSize.Some? then p.specSize.value else ""));
      ok := Update(p);
      if ok { pvc := p; }
    }

    /** One modification in the phase found by `ShouldModify`; `cloud` is the cloud's answer. */
    method Modify(now: int, cloud: Cloud) returns (r: Outcome, ghost asks: bool)
      requires desired.Some? && pvc == stored
      modifies `pvc, `stored, `asked, `failures
      ensures pvc == stored && Leaves(old(pvc), phase, desired.value, now, stored, asks, r)
      ensures asked == if asks then desired else old(asked)
      ensures r.Done? ==> cloud.Applied?
      ensures failures == old(failures) && (phase.Preparing? || phase.Modifying?) && env.modifierKnown ==>
                asks && Advances(old(pvc), phase, desired.value, now, cloud, stored, r)
    {
      asks := false;
      if phase != Preparing && phase != Modifying { return Failed, asks; }
      var ok;
      if phase == Preparing {
        ok := ModifyPvcAnnoSpec(now);
        if !ok { return Failed, asks; }
      }
      if !env.modifierKnown { return Failed, asks; }
      asked, asks := desired, true;
      if cloud.Refused? { return Failed, asks; }
      if cloud.InProgress? { return Wait, asks; }
      var synced;
      synced, ok := SyncPvcSize();
      if !ok { return Failed, asks; }
      if !synced { return Wait, asks; }
      ok := ModifyPvcAnnoStatus();
      if !ok { return Failed, asks; }
      return Done, asks;
    }
  }

  // ---------------------------------------------------------------- runs

  /** The claim, and what the cloud was last asked for. */
  datatype State = State(pvc: Pvc, asked: Option<Desired>)

  datatype Step =
    | Attempt(desired: Desired, env: Environment, now: int, asks: bool, outcome: Outcome)
    | SetRequest(size: Quantity)
    | SetCapacity(size: Quantity)

  predicate Unannotated(p: Pvc)
  {
    && p.specRev.Unset? && p.specClass == "" && p.specSize.None?
    && p.statusRev.Unset? && p.statusClass == "" && p.statusSize.None? && p.transition.None?
  }

  /** One attempt to modify, or a change of request or capacity by others. */
  predicate Follows(x: State, s: Step, y: State)
  {
    match s
    case Attempt(d, env, now, asks, r) =>
      && Leaves(x.pvc, PhaseOf(x.pvc, Some(d), env, now), d, now, y.pvc, asks, r)
      && y.asked == if asks then Some(d) else x.asked
    case SetRequest(size) => y == x.(pvc := x.pvc.(request := size))
    case SetCapacity(size) => y == x.(pvc := x.pvc.(capacity := size))
  }

  ghost predicate IsRun(xs: seq<State>, steps: seq<Step>)
  {
    |xs| == |steps| + 1 && forall i | 0 <= i < |steps| :: Follows(xs[i], steps[i], xs[i + 1])
  }

  /** A run of a claim that starts without annotations and was never sent to the cloud. */
  ghost predicate IsWholeRun(xs: seq<State>, steps: seq<Step>)
  {
    IsRun(xs, steps) && Unannotated(xs[0].pvc) && xs[0].asked.None?
  }

  /** While the revisions agree, so do the recorded class and size. */
  predicate Invariant(p: Pvc)
  {
    && (p.specRev.Unset? <==> p.specSize.None?) && (p.statusRev.Unset? <==> p.statusSize.None?)
    && (p.specSize.None? ==> p.specClass == "" && p.statusSize.None?)
    && (p.specClass == "" ==> p.statusClass == "")
    && !p.specRev.Malformed? && !p.statusRev.Malformed?
    && (p.statusRev.Rev? ==> p.statusRev.n <= p.specRev.n)
    && (p.specRev.Rev? ==> p.specRev.n >= 1)
    && (!RevisionChanged(p) ==> p.specSize == p.statusSize && p.specClass == p.statusClass)
  }

  /** A change is refused exactly if no volume is desired, it would shrink the volume, it would grow one that
      cannot, it would change the class of one whose persistent volume is unknown, or the modifier of its
      provisioner is unknown or objects. */
  lemma RefusedExactly(p: Pvc, desired: Option<Desired>, env: Environment, now: int)
    ensures PhaseOf(p, desired, env, now).CannotModify? <==>
              || desired.None?
              || desired.value.size.value < p.capacity.value
              || (desired.value.size.value > p.capacity.value && !env.expandable)
              || (desired.value.class_ !in {"", if p.statusClass == "" then p.class_ else p.statusClass}
                  && !env.pvKnown)
              || !env.modifierKnown || !env.accepts
  {
  }

  /** What a change that is not refused is at: under way while the revisions differ, done once the recorded class
      and size are the desired ones, and else put off until the last one is long enough ago. */
  lemma PhaseExactly(p: Pvc, d: Desired, env: Environment, now: int)
    requires !PhaseOf(p, Some(d), env, now).CannotModify?
    ensures var phase := PhaseOf(p, Some(d), env, now);
            var same := && d.class_ in {"", if p.statusClass == "" then p.class_ else p.statusClass}
                        && d.size.text == (if p.statusSize.None? then p.request.text else p.statusSize.value);
            && (phase.Modifying? <==> p.specRev != p.statusRev)
            && (phase.Modified? <==> p.specRev == p.statusRev && same)
            && (phase.Pending? <==> p.specRev == p.statusRev && !same
                                    && p.transition.Some? && now < p.transition.value + env.minWait)
            && (phase.Preparing? <==> p.specRev == p.statusRev && !same
                                      && (p.transition.None? || p.transition.value + env.minWait <= now))
  {
  }

  /** No attempt makes a volume smaller, or asks the cloud to. */
  lemma ShrinkIsRefused(x: State, s: Step, y: State)
    requires Follows(x, s, y) && s.Attempt? && s.desired.size.value < x.pvc.capacity.value
    ensures y == x && s.outcome.Failed? && !s.asks
  {
    RefusedExactly(x.pvc, Some(s.desired), s.env, s.now);
  }

  /** Preparing records the wish and its time, under a new revision exactly if it differs from the one before;
      what is recorded as done is left alone, and preparing for the same again changes no revision. */
  lemma PreparedRecords(p: Pvc, d: Desired, now: int)
    ensures var q := Prepared(p, d, now);
            && q.specSize == Some(d.size.text) && q.transition == Some(now)
            && q.specClass == (if d.class_ == "" then p.specClass else d.class_)
            && (q.specRev != p.specRev <==>
                  || d.class_ !in {"", if p.specClass == "" then p.class_ else p.specClass}
                  || d.size.text != (if p.specSize.None? then p.request.text else p.specSize.value))
            && (q.specRev != p.specRev ==> q.specRev == if p.specRev.Rev? then Rev(p.specRev.n + 1) else Rev(1))
            && q.statusRev == p.statusRev && q.statusClass == p.statusClass && q.statusSize == p.statusSize
            && q.class_ == p.class_ && q.request == p.request && q.capacity == p.capacity
            && Prepared(q, d, now) == q
  {
  }

  /** Completing makes what was prepared the record of what is done, and no more. */
  lemma CompletedRecords(p: Pvc)
    requires p.specSize.Some?
    ensures var q := Completed(p);
            && q.statusRev == p.specRev && q.statusSize == p.specSize
            && q.statusClass == (if p.specClass == "" then p.statusClass else p.specClass)
            && q.specRev == p.specRev && q.specClass == p.specClass && q.specSize == p.specSize
            && q.class_ == p.class_ && q.request == p.request && q.capacity == p.capacity
            && q.transition == p.transition
  {
  }

  /** The attempt recorded a new wish. */
  predicate Prepares(x: State, s: Step, y: State)
  {
    s.Attempt? && PhaseOf(x.pvc, Some(s.desired), s.env, s.now).Preparing? && y.pvc != x.pvc
  }

  lemma TransitionIsKept(x: State, s: Step, y: State)
    requires Follows(x, s, y)
    ensures y.pvc.transition == if Prepares(x, s, y) then Some(s.now) else x.pvc.transition
  {
  }

  /** Between two changes of a claim lies at least the time that the later one's modifier asks for. */
  lemma {:induction false} ChangesAreSpaced(xs: seq<State>, steps: seq<Step>, i: nat, j: nat)
    requires IsRun(xs, steps) && i < j < |steps|
    requires Prepares(xs[i], steps[i], xs[i + 1]) && Prepares(xs[j], steps[j], xs[j + 1])
    requires forall k | i < k < j :: !Prepares(xs[k], steps[k], xs[k + 1])
    ensures steps[j].now >= steps[i].now + steps[j].env.minWait
  {
    hide Follows, Prepares;
    TransitionStays(xs, steps, i, j);
    PreparesOnTime(xs[j], steps[j], xs[j + 1]);
  }

  lemma PreparesOnTime(x: State, s: Step, y: State)
    requires Prepares(x, s, y)
    ensures s.Attempt? && (x.pvc.transition.Some? ==> s.now >= x.pvc.transition.value + s.env.minWait)
  {
  }

  lemma {:induction false} TransitionStays(xs: seq<State>, steps: seq<Step>, i: nat, j: nat)
    requires IsRun(xs, steps) && i < j <= |steps| && Prepares(xs[i], steps[i], xs[i + 1])
    requires forall k | i < k < j :: !Prepares(xs[k], steps[k], xs[k + 1])
    ensures steps[i].Attempt? && xs[j].pvc.transition == Some(steps[i].now)
    decreases j
  {
    hide Follows;
    assert Follows(xs[j - 1], steps[j - 1], xs[j]);
    TransitionIsKept(xs[j - 1], steps[j - 1], xs[j]);
    if i < j - 1 { TransitionStays(xs, steps, i, j - 1); }
  }

  /** A change that is being prepared always gets a revision of its own. */
  lemma PreparingBumpsRevision(p: Pvc, d: Desired, env: Environment, now: int)
    requires Invariant(p) && PhaseOf(p, Some(d), env, now).Preparing?
    ensures SpecDiffers(p, d)
    ensures Prepared(p, d, now).specRev == Upgraded(p.specRev) && RevisionChanged(Prepared(p, d, now))
    ensures Invariant(Prepared(p, d, now))
  {
  }

  lemma StepKeepsInvariant(x: State, s: Step, y: State)
    requires Invariant(x.pvc) && Follows(x, s, y)
    ensures Invariant(y.pvc)
  {
    if s.Attempt? && PhaseOf(x.pvc, Some(s.desired), s.env, s.now).Preparing? {
      PreparingBumpsRevision(x.pvc, s.desired, s.env, s.now);
    }
  }

  lemma {:induction false} RunKeepsInvariant(xs: seq<State>, steps: seq<Step>)
    requires IsRun(xs, steps) && Invariant(xs[0].pvc)
    ensures Invariant(xs[|xs| - 1].pvc)
  {
    hide Invariant, Follows;
    if steps != [] {
      var n := |steps| - 1;
      RunKeepsInvariant(xs[..|xs| - 1], steps[..n]);
      assert Follows(xs[n], steps[n], xs[n + 1]);
      StepKeepsInvariant(xs[n], steps[n], xs[n + 1]);
    }
  }

  /** In every run from a claim without annotations, with stops anywhere: equal revisions mean that
      the effective spec and status agree. */
  lemma RevisionsTellTheTruth(xs: seq<State>, steps: seq<Step>)
    requires IsRun(xs, steps) && Unannotated(xs[0].pvc)
    ensures var p := xs[|xs| - 1].pvc;
            && Invariant(p)
            && (!RevisionChanged(p) ==> SpecClass(p) == StatusClass(p) && SpecSize(p) == StatusSize(p))
  {
    RunKeepsInvariant(xs, steps);
  }

  // ---------------------------------------------------------------- interruptions

  /** After a change was recorded, no step short of its completion takes it back. */
  lemma {:induction false} ChangeStaysOpen(xs: seq<State>, steps: seq<Step>)
    requires IsRun(xs, steps) && Invariant(xs[0].pvc) && RevisionChanged(xs[0].pvc)
    requires forall i | 0 <= i < |steps| :: steps[i].Attempt? ==> !steps[i].outcome.Done?
    ensures var p, q := xs[0].pvc, xs[|xs| - 1].pvc;
            RevisionChanged(q) && q.specRev == p.specRev && q.specClass == p.specClass && q.specSize == p.specSize
  {
    hide Invariant;
    if steps != [] {
      var n := |steps| - 1;
      ChangeStaysOpen(xs[..|xs| - 1], steps[..n]);
      assert Follows(xs[n], steps[n], xs[n + 1]);
    }
  }

  /** An interrupted change is resumed, whatever is desired by then, exactly while it validates. */
  lemma InterruptedResumes(xs: seq<State>, steps: seq<Step>, desired: Option<Desired>, env: Environment, now: int)
    requires IsRun(xs, steps) && Invariant(xs[0].pvc) && RevisionChanged(xs[0].pvc)
    requires forall i | 0 <= i < |steps| :: steps[i].Attempt? ==> !steps[i].outcome.Done?
    ensures PhaseOf(xs[|xs| - 1].pvc, desired, env, now) ==
              if Validates(xs[|xs| - 1].pvc, desired, env) then Modifying else CannotModify
  {
    ChangeStaysOpen(xs, steps);
  }

  // ---------------------------------------------------------------- completion

  /** A completed change leaves the claim looking modified for exactly the class and size that were
      recorded when it was prepared: a different newer wish still needs a change. */
  lemma CompletedLooksModifiedExactly(p: Pvc, d: Desired, env: Environment, now: int)
    requires Invariant(p) && RevisionChanged(p) && Validates(Completed(p), Some(d), env)
    ensures Invariant(Completed(p)) && !RevisionChanged(Completed(p))
    ensures PhaseOf(Completed(p), Some(d), env, now).Modified? <==> !SpecDiffers(p, d)
  {
  }

  // ---------------------------------------------------------------- what the cloud was asked

  /** The last step that completed a change. */
  function LastDone(steps: seq<Step>): (k: Option<nat>)
    ensures k.Some? ==> k.value < |steps| && steps[k.value].Attempt? && steps[k.value].outcome.Done?
  {
    if steps == [] then None
    else if steps[|steps| - 1].Attempt? && steps[|steps| - 1].outcome.Done? then Some(|steps| - 1)
    else LastDone(steps[..|steps| - 1])
  }

  function AttemptPhase(p: Pvc, s: Step): Phase
    requires s.Attempt?
  {
    PhaseOf(p, Some(s.desired), s.env, s.now)
  }

  /** The claim with the spec that an attempt carries out. */
  function Base(p: Pvc, s: Step): Pvc
    requires s.Attempt?
  {
    if AttemptPhase(p, s).Preparing? then Prepared(p, s.desired, s.now) else p
  }

  /** The status is what the last completion recorded; with nothing open, the cloud was last asked by
      the attempt that completed, and never if none did. */
  ghost predicate Accounted(xs: seq<State>, steps: seq<Step>)
    requires |xs| == |steps| + 1
  {
    var x := xs[|xs| - 1];
    match LastDone(steps)
    case None => x.pvc.statusRev.Unset? && (!RevisionChanged(x.pvc) ==> x.asked.None?)
    case Some(k) =>
      var done := Completed(Base(xs[k].pvc, steps[k]));
      && x.pvc.class_ == done.class_ && x.pvc.statusClass == done.statusClass && x.pvc.statusSize == done.statusSize
      && (!RevisionChanged(x.pvc) ==> x.asked == Some(steps[k].desired))
  }

  lemma AccountedStep(xs: seq<State>, steps: seq<Step>)
    requires steps != [] && IsRun(xs, steps) && Accounted(xs[..|steps|], steps[..|steps| - 1])
    requires Invariant(xs[|steps| - 1].pvc)
    ensures Accounted(xs, steps)
  {
    var n := |steps| - 1;
    var x, s, y := xs[n], steps[n], xs[n + 1];
    assert Follows(x, s, y);
    if s.Attempt? && AttemptPhase(x.pvc, s).Preparing? {
      PreparingBumpsRevision(x.pvc, s.desired, s.env, s.now);
    }
    if LastDone(steps) != Some(n) {
      assert LastDone(steps) == LastDone(steps[..n]);
      if LastDone(steps).Some? {
        var k := LastDone(steps).value;
        assert xs[..n + 1][k] == xs[k] && steps[..n][k] == steps[k];
      }
    }
  }

  lemma {:induction false} RunIsAccounted(xs: seq<State>, steps: seq<Step>)
    requires IsWholeRun(xs, steps)
    ensures Accounted(xs, steps) && Invariant(xs[|xs| - 1].pvc)
  {
    hide Invariant, Accounted, Follows;
    RunKeepsInvariant(xs, steps) by { assert Invariant(xs[0].pvc) by { StartIsSound(xs[0].pvc); } }
    if steps == [] {
      NothingDone(xs);
    } else {
      var n := |steps| - 1;
      RunIsAccounted(xs[..n + 1], steps[..n]);
      AccountedStep(xs, steps);
    }
  }

  lemma StartIsSound(p: Pvc)
    requires Unannotated(p)
    ensures Invariant(p)
  {
  }

  lemma NothingDone(xs: seq<State>)
    requires IsWholeRun(xs, [])
    ensures Accounted(xs, [])
  {
  }

  /** Over every run: a claim with no open change records what the cloud was last asked for exactly
      if the attempt that completed the last change had also prepared it, or was made with the class
      and size it had been prepared for. */
  lemma RecordsWhatWasAskedExactly(xs: seq<State>, steps: seq<Step>)
    requires IsWholeRun(xs, steps)
    requires var x := xs[|xs| - 1]; x.asked.Some? && !RevisionChanged(x.pvc)
    ensures var x, done := xs[|xs| - 1], LastDone(steps);
            && done.Some? && x.asked == Some(steps[done.value].desired)
            && (!StatusDiffers(x.pvc, x.asked.value) <==>
                  var p, s := xs[done.value].pvc, steps[done.value];
                  AttemptPhase(p, s).Preparing? || !SpecDiffers(p, s.desired))
  {
    RunIsAccounted(xs, steps);
    var k := LastDone(steps).value;
    assert Follows(xs[k], steps[k], xs[k + 1]);
    RunIsAccounted(xs[..k + 1], steps[..k]);
  }

  /** A wish that changes and changes back: "a" is prepared, "b" is desired when it completes, and
      then "a" again. The claim looks modified for "a", and the cloud was last asked for "b". */
  lemma StatusMayLag(size: Quantity, env: Environment, now: int)
    requires env.pvKnown && env.modifierKnown && env.accepts
    ensures var start := Pvc("x", size, size, Unset, "", None, Unset, "", None, None);
            var a, b := Desired("a", size), Desired("b", size);
            var open := Prepared(start, a, now);
            var xs := [State(start, None), State(open, Some(a)), State(Completed(open), Some(b))];
            && IsWholeRun(xs, [Attempt(a, env, now, true, Wait), Attempt(b, env, now, true, Done)])
            && PhaseOf(xs[2].pvc, Some(a), env, now).Modified?
            && StatusDiffers(xs[2].pvc, xs[2].asked.value)
  {
  }

  // ---------------------------------------------------------------- progress

  /** A pass in which nothing fails, after which the file system catches up with the request. */
  function Pass(p: Pvc, d: Desired, env: Environment, now: int): Pvc
  {
    var phase := PhaseOf(p, Some(d), env, now);
    if phase.Preparing? || phase.Modifying? then
      var base := if phase.Preparing? then Prepared(p, d, now) else p;
      var q := if base.request.value != d.size.value then Resized(base, d)
               else if base.capacity.value != d.size.value then base else Completed(base);
      q.(capacity := q.request)
    else p
  }

  function Passes(p: Pvc, d: Desired, env: Environment, times: seq<int>): Pvc
    decreases |times|
  {
    if times == [] then p else Passes(Pass(p, d, env, times[0]), d, env, times[1..])
  }

  /** A pass is an attempt followed by a change of capacity. */
  lemma PassIsAnAttempt(x: State, d: Desired, env: Environment, now: int) returns (y: State, s: Step)
    requires Validates(x.pvc, Some(d), env)
    ensures s.Attempt? && Follows(x, s, y)
              && y.pvc.(capacity := Pass(x.pvc, d, env, now).capacity) == Pass(x.pvc, d, env, now)
  {
    var phase := PhaseOf(x.pvc, Some(d), env, now);
    if phase.Preparing? || phase.Modifying? {
      var base := if phase.Preparing? then Prepared(x.pvc, d, now) else x.pvc;
      if base.request.value != d.size.value {
        return State(Resized(base, d), Some(d)), Attempt(d, env, now, true, Wait);
      } else if base.capacity.value != d.size.value {
        return State(base, Some(d)), Attempt(d, env, now, true, Wait);
      } else {
        return State(Completed(base), Some(d)), Attempt(d, env, now, true, Done);
      }
    }
    return x, Attempt(d, env, now, false, Failed);
  }

  /** How many passes a claim is away from looking modified. */
  function Distance(p: Pvc, d: Desired): (n: nat)
    ensures n <= 3
  {
    var synced := p.request.value == p.capacity.value == d.size.value;
    if RevisionChanged(p) then (if synced then 1 else 2) + (if SpecDiffers(p, d) then 1 else 0)
    else if StatusDiffers(p, d) then (if synced then 1 else 2)
    else 0
  }

  lemma PassMakesProgress(p: Pvc, d: Desired, env: Environment, now: int)
    requires Invariant(p) && Validates(p, Some(d), env) && env.pvKnown && !Waiting(p, env, now) && Distance(p, d) > 0
    ensures var q := Pass(p, d, env, now);
            && Invariant(q) && Validates(q, Some(d), env)
            && Distance(q, d) < Distance(p, d)
            && (q.transition == p.transition || q.transition == Some(now))
  {
    if PhaseOf(p, Some(d), env, now).Preparing? { PreparingBumpsRevision(p, d, env, now); }
  }

  lemma RunPrepended(x: State, s: Step, xs: seq<State>, steps: seq<Step>)
    requires IsRun(xs, steps) && Follows(x, s, xs[0])
    ensures IsRun([x] + xs, [s] + steps)
  {
    hide Follows;
    var ys, ts := [x] + xs, [s] + steps;
    forall i | 0 <= i < |ts| ensures Follows(ys[i], ts[i], ys[i + 1]) {
      if i > 0 { assert ys[i] == xs[i - 1] && ts[i] == steps[i - 1] && ys[i + 1] == xs[i]; }
    }
  }

  /** With a steady wish and nothing failing, spaced passes are a run that ends in the modified phase. */
  lemma {:induction false} PassesEndModified(x: State, d: Desired, env: Environment, times: seq<int>, now: int)
    returns (xs: seq<State>, steps: seq<Step>)
    requires Invariant(x.pvc) && Validates(x.pvc, Some(d), env) && env.pvKnown
    requires Distance(x.pvc, d) <= |times|
    requires forall i | 0 <= i < |times| :: x.pvc.transition.Some? ==> times[i] - x.pvc.transition.value >= env.minWait
    requires forall i, j | 0 <= i < j < |times| :: times[j] - times[i] >= env.minWait
    ensures IsRun(xs, steps) && xs[0] == x && xs[|xs| - 1].pvc == Passes(x.pvc, d, env, times)
    ensures PhaseOf(xs[|xs| - 1].pvc, Some(d), env, now).Modified?
    decreases |times|
  {
    hide Invariant, Follows, Pass;
    if Distance(x.pvc, d) > 0 {
      PassMakesProgress(x.pvc, d, env, times[0]);
      var y, s := PassIsAnAttempt(x, d, env, times[0]);
      var z, t := State(Pass(x.pvc, d, env, times[0]), y.asked), SetCapacity(Pass(x.pvc, d, env, times[0]).capacity);
      xs, steps := PassesEndModified(z, d, env, times[1..], now);
      CapacityFollows(y, t, z);
      RunPrepended(y, t, xs, steps);
      RunPrepended(x, s, [y] + xs, [t] + steps);
      xs, steps := [x] + ([y] + xs), [s] + ([t] + steps);
    } else {
      ModifiedStays(x.pvc, d, env, times);
      return [x], [];
    }
  }

  lemma CapacityFollows(y: State, t: Step, z: State)
    requires t.SetCapacity? && z == y.(pvc := y.pvc.(capacity := t.size))
    ensures Follows(y, t, z)
  {
  }

  lemma {:induction false} ModifiedStays(p: Pvc, d: Desired, env: Environment, times: seq<int>)
    requires Validates(p, Some(d), env) && Distance(p, d) == 0
    ensures Passes(p, d, env, times) == p
  {
    if times != [] { ModifiedStays(p, d, env, times[1..]); }
  }
}
