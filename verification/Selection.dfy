/** How the updater chooses one instance out of a list: filters, then preference policies from
    the last (highest priority) to the first, each narrowing the list it is given. */
module Selection {
  import opened Wrappers
  import opened Instances
  import opened Ordering

  datatype Filter = AnnotationAbsent(key: string) | OnRevision(revision: string)
  {
    predicate Eligible(i: Instance) {
      match this
      case AnnotationAbsent(key) => key !in i.annotations
      case OnRevision(revision) => i.updateRevision == revision
    }
  }

  /** `Custom` is a policy supplied by a group controller. */
  datatype Policy =
    | Newer
    | PodDeletionCost(cost: Instance -> int)
    | Priority
    | Unready
    | NotRunning
    | CapacityExceedsRequest
    | Custom(prefer: seq<Instance> -> seq<Instance>)
  {
    /** A built-in policy prefers the instances of lowest rank. */
    function Rank(i: Instance): int {
      match this
      case Newer => -i.created
      case PodDeletionCost(cost) => cost(i)
      case Priority => if i.priority.Some? then i.priority.value else NO_PRIORITY
      case Unready => if !i.IsUpToDate() || !i.IsReady() then 0 else 1
      case NotRunning => if i.IsNotRunning() then 0 else 1
      case CapacityExceedsRequest => if i.Observed(i.capacityExceedsRequest, True) then 0 else 1
      case Custom(_) => 0
    }

    /** Policies that return nothing when nobody has the trait they look for. */
    predicate ByTrait() { Unready? || NotRunning? || CapacityExceedsRequest? }

    /** A preference picks among what it is given. */
    ghost predicate WellBehaved() {
      Custom? ==> forall s: seq<Instance>, i: Instance :: i in prefer(s) ==> i in s
    }
  }

  // Above every valid priority.
  const NO_PRIORITY: int := 0x8000_0000_0000_0000

  function UpdatePolicies(cost: Instance -> int, custom: seq<Policy>): seq<Policy>
  {
    [PodDeletionCost(cost), Priority, Unready, NotRunning] + custom
  }

  function ScaleInPolicies(cost: Instance -> int, custom: seq<Policy>): seq<Policy>
  {
    [Newer, PodDeletionCost(cost), Priority, Unready, NotRunning, CapacityExceedsRequest] + custom
  }

  function CancelOfflinePolicies(cost: Instance -> int): seq<Policy>
  {
    [PodDeletionCost(cost), Priority]
  }

  // ---------------------------------------------------------------- specification

  function WithRank(p: Policy, s: seq<Instance>, r: int): seq<Instance>
  {
    if s == [] then []
    else
      var init := WithRank(p, s[..|s| - 1], r);
      if p.Rank(s[|s| - 1]) == r then init + [s[|s| - 1]] else init
  }

  function MinRank(p: Policy, s: seq<Instance>): int
    requires s != []
  {
    var x := p.Rank(s[|s| - 1]);
    if |s| == 1 then x
    else
      var m := MinRank(p, s[..|s| - 1]);
      if x < m then x else m
  }

  function Best(p: Policy, s: seq<Instance>): seq<Instance>
  {
    if s == [] then [] else WithRank(p, s, MinRank(p, s))
  }

  function Preferred(p: Policy, s: seq<Instance>): seq<Instance>
  {
    match p
    case Custom(prefer) => prefer(s)
    case _ => if p.ByTrait() then WithRank(p, s, 0) else Best(p, s)
  }

  function Narrow(ps: seq<Policy>, s: seq<Instance>): seq<Instance>
  {
    if ps == [] then s
    else
      var preferred := Preferred(ps[|ps| - 1], s);
      Narrow(ps[..|ps| - 1], if preferred == [] then s else preferred)
  }

  function Eligible(fs: seq<Filter>, s: seq<Instance>): seq<Instance>
  {
    if s == [] then []
    else
      var init := Eligible(fs, s[..|s| - 1]);
      if forall f | f in fs :: f.Eligible(s[|s| - 1]) then init + [s[|s| - 1]] else init
  }

  /** Lexicographic comparison by rank, the last policy first. Negative means `a` goes first. */
  function Compare(ps: seq<Policy>, a: Instance, b: Instance): int
  {
    if ps == [] then 0
    else
      var p := ps[|ps| - 1];
      if p.Rank(a) != p.Rank(b) then p.Rank(a) - p.Rank(b) else Compare(ps[..|ps| - 1], a, b)
  }

  ghost predicate AscendingNames(s: seq<Instance>)
  {
    forall i, j | 0 <= i < j < |s| :: Less(s[i].name, s[j].name)
  }

  // ---------------------------------------------------------------- the policies' loops

  method FilterBy(f: Filter, s: seq<Instance>) returns (eligible: seq<Instance>)
    ensures eligible == Eligible([f], s)
    ensures forall x :: x in eligible <==>
              && x in s
              && (f.AnnotationAbsent? ==> f.key !in x.annotations)
              && (f.OnRevision? ==> x.updateRevision == f.revision)
  {
    eligible := [];
    for i := 0 to |s|
      invariant eligible == Eligible([f], s[..i])
    {
      assert s[..i + 1][..i] == s[..i];
      assert f in [f] && s[..i + 1][|s[..i + 1]| - 1] == s[i];
      match f
      case AnnotationAbsent(key) =>
        if key !in s[i].annotations { eligible := eligible + [s[i]]; }
      case OnRevision(revision) =>
        if s[i].updateRevision == revision { eligible := eligible + [s[i]]; }
    }
    assert s[..|s|] == s;
    forall x ensures x in eligible <==> x in s && f.Eligible(x) { EligibleComesFrom([f], s, x); }
  }

  lemma {:induction false} EligibleTwice(fs: seq<Filter>, f: Filter, s: seq<Instance>)
    ensures Eligible([f], Eligible(fs, s)) == Eligible(fs + [f], s)
  {
    if s != [] {
      EligibleTwice(fs, f, s[..|s| - 1]);
      var x := s[|s| - 1];
      assert forall g :: g in fs + [f] <==> g in fs || g == f;
      if forall g | g in fs :: g.Eligible(x) {
        var kept := Eligible(fs, s[..|s| - 1]) + [x];
        assert kept[..|kept| - 1] == Eligible(fs, s[..|s| - 1]);
      }
    }
  }

  method ApplyFilters(fs: seq<Filter>, s: seq<Instance>) returns (allowed: seq<Instance>)
    ensures allowed == Eligible(fs, s)
  {
    hide Eligible;
    allowed := s;
    NoFilter(s);
    for i := 0 to |fs|
      invariant allowed == Eligible(fs[..i], s)
    {
      EligibleTwice(fs[..i], fs[i], s);
      assert fs[..i] + [fs[i]] == fs[..i + 1];
      allowed := FilterBy(fs[i], allowed);
    }
    assert fs[..|fs|] == fs;
  }

  lemma {:induction false} NoFilter(s: seq<Instance>)
    ensures Eligible([], s) == s
  {
    if s != [] { NoFilter(s[..|s| - 1]); }
  }

  /** The loop shared by the policies that look for a trait. */
  method PreferTrait(p: Policy, s: seq<Instance>) returns (chosen: seq<Instance>)
    requires p.ByTrait()
    ensures chosen == Preferred(p, s)
  {
    chosen := [];
    for i := 0 to |s|
      invariant chosen == WithRank(p, s[..i], 0)
    {
      assert s[..i + 1][..i] == s[..i];
      var x := s[i];
      var has := match p
        case Unready => !x.IsUpToDate() || !x.IsReady()
        case NotRunning => x.IsNotRunning()
        case _ => x.Observed(x.capacityExceedsRequest, True);
      if has {
        chosen := chosen + [x];
      }
    }
    assert s[..|s|] == s;
  }

  lemma {:induction false} BelowMinRank(p: Policy, s: seq<Instance>, r: int)
    ensures s == [] || r < MinRank(p, s) ==> WithRank(p, s, r) == []
  {
    if |s| > 1 {
      BelowMinRank(p, s[..|s| - 1], r);
    }
  }

  lemma {:induction false} ConstantRank(p: Policy, s: seq<Instance>, r: int)
    requires forall x | x in s :: p.Rank(x) == r
    ensures WithRank(p, s, r) == s
    ensures s != [] ==> MinRank(p, s) == r
  {
    hide Policy.Rank;
    if s != [] {
      ConstantRank(p, s[..|s| - 1], r);
      assert s[|s| - 1] in s;
      assert s == s[..|s| - 1] + [s[|s| - 1]];
    }
  }

  lemma {:induction false} BestIsNonEmpty(p: Policy, s: seq<Instance>)
    requires s != []
    ensures Best(p, s) != []
  {
    if |s| > 1 { BestIsNonEmpty(p, s[..|s| - 1]); }
  }

  lemma BestOfOneMore(p: Policy, s: seq<Instance>, x: Instance)
    ensures s == [] || p.Rank(x) < MinRank(p, s) ==> Best(p, s + [x]) == [x]
    ensures s != [] && p.Rank(x) == MinRank(p, s) ==> Best(p, s + [x]) == Best(p, s) + [x]
    ensures s != [] && p.Rank(x) > MinRank(p, s) ==> Best(p, s + [x]) == Best(p, s)
    ensures s != [] ==> MinRank(p, s + [x]) == if p.Rank(x) < MinRank(p, s) then p.Rank(x) else MinRank(p, s)
    ensures s == [] ==> MinRank(p, s + [x]) == p.Rank(x)
  {
    assert (s + [x])[..|s + [x]| - 1] == s;
    BelowMinRank(p, s, p.Rank(x));
  }

  /** The instances created last. */
  method PreferNewer(s: seq<Instance>) returns (chosen: seq<Instance>)
    ensures chosen == Preferred(Newer, s)
    ensures forall x, y | x in chosen && y in s :: y.created <= x.created
  {
    hide WithRank, MinRank;
    chosen := [];
    for i := 0 to |s|
      invariant chosen == Best(Newer, s[..i])
      invariant i > 0 ==> chosen != [] && chosen[0].created == -MinRank(Newer, s[..i])
    {
      var x := s[i];
      assert s[..i + 1] == s[..i] + [x];
      BestOfOneMore(Newer, s[..i], x);
      if chosen == [] {
        chosen := chosen + [x];
        continue;
      }
      var latest := chosen[0].created;
      if latest < x.created {
        chosen := [x];
      } else if latest == x.created {
        chosen := chosen + [x];
      }
    }
    assert s[..|s|] == s;
    BestIsLeast(Newer, s);
  }

  /** The instances of the lowest cost; fewer than two are not even looked at. */
  method PreferPodDeletionCost(cost: Instance -> int, s: seq<Instance>) returns (chosen: seq<Instance>)
    ensures chosen == Preferred(PodDeletionCost(cost), s)
    ensures forall x, y | x in chosen && y in s :: cost(x) <= cost(y)
  {
    hide WithRank, MinRank;
    ghost var p := PodDeletionCost(cost);
    if |s| < 2 {
      if s != [] { ConstantRank(p, s, cost(s[0])); }
      return s;
    }
    chosen := [];
    var minimum := 0;
    for i := 0 to |s|
      invariant chosen == Best(p, s[..i])
      invariant i > 0 ==> chosen != [] && minimum == MinRank(p, s[..i])
    {
      var c := cost(s[i]);
      assert s[..i + 1] == s[..i] + [s[i]];
      BestOfOneMore(p, s[..i], s[i]);
      if chosen == [] || c < minimum {
        minimum := c;
        chosen := [s[i]];
      } else if c == minimum {
        chosen := chosen + [s[i]];
      }
    }
    assert s[..|s|] == s;
    BestIsLeast(p, s);
  }

  lemma BestIsLeast(p: Policy, s: seq<Instance>)
    ensures forall x, y | x in Best(p, s) && y in s :: p.Rank(x) <= p.Rank(y)
  {
    hide WithRank, MinRank, Policy.Rank;
    if s != [] {
      MinRankIsLeast(p, s);
      forall x | x in Best(p, s) ensures p.Rank(x) == MinRank(p, s) { WithRankElements(p, s, MinRank(p, s), x); }
    }
  }

  /** Only instances with a valid priority compete; if there is none, everybody is returned. */
  method PreferPriority(s: seq<Instance>) returns (chosen: seq<Instance>)
    ensures chosen == Preferred(Priority, s)
    ensures forall x, y | x in chosen && y in s && y.priority.Some? ::
              x.priority.Some? && x.priority.value <= y.priority.value
  {
    hide WithRank, MinRank;
    chosen := [];
    var minimal := -1;
    for i := 0 to |s|
      invariant minimal == -1 ==> forall x | x in s[..i] :: Priority.Rank(x) == NO_PRIORITY
      invariant minimal != -1 ==> i > 0 && 0 <= minimal < NO_PRIORITY
      invariant minimal != -1 ==> minimal == MinRank(Priority, s[..i]) && chosen == Best(Priority, s[..i])
    {
      var x := s[i];
      assert s[..i + 1] == s[..i] + [x] && x in s;
      BestOfOneMore(Priority, s[..i], x);
      if minimal == -1 { ConstantRank(Priority, s[..i], NO_PRIORITY); }
      if x.priority.Some? {
        if minimal == -1 || x.priority.value < minimal {
          minimal := x.priority.value;
          chosen := [x];
        } else if x.priority.value == minimal {
          chosen := chosen + [x];
        }
      }
    }
    assert s[..|s|] == s;
    BestIsLeast(Priority, s);
    if minimal == -1 {
      ConstantRank(Priority, s, NO_PRIORITY);
      return s;
    }
  }

  method Prefer(p: Policy, s: seq<Instance>) returns (chosen: seq<Instance>)
    ensures chosen == Preferred(p, s)
  {
    match p
    case Custom(prefer) => chosen := prefer(s);
    case Newer => chosen := PreferNewer(s);
    case PodDeletionCost(cost) => chosen := PreferPodDeletionCost(cost, s);
    case Priority => chosen := PreferPriority(s);
    case _ => chosen := PreferTrait(p, s);
  }

  // ---------------------------------------------------------------- Choose

  lemma {:induction false} WithRankElements(p: Policy, s: seq<Instance>, r: int, x: Instance)
    ensures x in WithRank(p, s, r) <==> x in s && p.Rank(x) == r
  {
    if s != [] {
      WithRankElements(p, s[..|s| - 1], r, x);
      assert s == s[..|s| - 1] + [s[|s| - 1]];
    }
  }

  lemma {:induction false} MinRankIsLeast(p: Policy, s: seq<Instance>)
    requires s != []
    ensures forall x | x in s :: MinRank(p, s) <= p.Rank(x)
    ensures exists x :: x in s && MinRank(p, s) == p.Rank(x)
  {
    hide Policy.Rank;
    var init, last := s[..|s| - 1], s[|s| - 1];
    assert s == init + [last] && last in s;
    if |s| > 1 {
      MinRankIsLeast(p, init);
      var least :| least in init && MinRank(p, init) == p.Rank(least);
      assert least in s;
    } else {
      assert MinRank(p, s) == p.Rank(last);
    }
  }

  lemma PreferredComesFrom(p: Policy, s: seq<Instance>, x: Instance)
    requires p.WellBehaved() && x in Preferred(p, s)
    ensures x in s
  {
    if !p.Custom? {
      WithRankElements(p, s, 0, x);
      if s != [] { WithRankElements(p, s, MinRank(p, s), x); }
    }
  }

  lemma {:induction false} NarrowComesFrom(ps: seq<Policy>, s: seq<Instance>, x: Instance)
    requires forall p | p in ps :: p.WellBehaved()
    requires x in Narrow(ps, s)
    ensures x in s
  {
    if ps != [] {
      var p := ps[|ps| - 1];
      var preferred := Preferred(p, s);
      NarrowComesFrom(ps[..|ps| - 1], if preferred == [] then s else preferred, x);
      if preferred != [] { PreferredComesFrom(p, s, x); }
    }
  }

  lemma {:induction false} NarrowIsNonEmpty(ps: seq<Policy>, s: seq<Instance>)
    requires s != []
    ensures Narrow(ps, s) != []
  {
    if ps != [] {
      var preferred := Preferred(ps[|ps| - 1], s);
      NarrowIsNonEmpty(ps[..|ps| - 1], if preferred == [] then s else preferred);
    }
  }

  /** Filters, then policies from the last to the first, stopping early at a single candidate. */
  method Choose(fs: seq<Filter>, ps: seq<Policy>, s: seq<Instance>) returns (chosen: Option<Instance>)
    requires forall p | p in ps :: p.WellBehaved()
    ensures Eligible(fs, s) == [] <==> chosen == None
    ensures chosen.Some? ==> Narrow(ps, Eligible(fs, s)) != [] && chosen.value == Narrow(ps, Eligible(fs, s))[0]
  {
    hide Narrow, Preferred, Eligible, Policy.WellBehaved;
    var allowed := ApplyFilters(fs, s);
    if allowed == [] {
      return None;
    }
    ghost var pool := allowed;
    NarrowIsNonEmpty(ps, pool);
    var k := |ps|;
    assert ps[..k] == ps;
    while k > 0
      invariant 0 <= k <= |ps| && allowed != []
      invariant Narrow(ps, pool) == Narrow(ps[..k], allowed)
    {
      var preferred := Prefer(ps[k - 1], allowed);
      NarrowLast(ps, k, allowed);
      if |preferred| == 1 {
        NarrowComesFrom(ps[..k - 1], preferred, Narrow(ps, pool)[0]);
        return Some(preferred[0]);
      }
      if preferred != [] {
        allowed := preferred;
      }
      k := k - 1;
    }
    NarrowByNone(allowed);
    return Some(allowed[0]);
  }

  lemma NarrowByNone(s: seq<Instance>)
    ensures Narrow([], s) == s
  {
  }

  lemma NarrowLast(ps: seq<Policy>, k: nat, s: seq<Instance>)
    requires 0 < k <= |ps|
    ensures var preferred := Preferred(ps[k - 1], s);
            Narrow(ps[..k], s) == Narrow(ps[..k - 1], if preferred == [] then s else preferred)
  {
    hide Preferred;
    assert ps[..k][..k - 1] == ps[..k - 1];
  }

  lemma {:induction false} EligibleComesFrom(fs: seq<Filter>, s: seq<Instance>, x: Instance)
    ensures x in Eligible(fs, s) <==> x in s && forall f | f in fs :: f.Eligible(x)
  {
    if s != [] {
      EligibleComesFrom(fs, s[..|s| - 1], x);
      assert s == s[..|s| - 1] + [s[|s| - 1]];
    }
  }

  // ---------------------------------------------------------------- what Choose means

  /** Among built-in policies, narrowing keeps exactly the lexicographic minima. */
  lemma {:induction false} NarrowKeepsMinima(ps: seq<Policy>, s: seq<Instance>, x: Instance)
    requires forall p | p in ps :: !p.Custom?
    requires s != []
    ensures x in Narrow(ps, s) <==> x in s && forall y | y in s :: Compare(ps, x, y) <= 0
  {
    if ps != [] {
      var p, init := ps[|ps| - 1], ps[..|ps| - 1];
      var preferred := Preferred(p, s);
      var rest := if preferred == [] then s else preferred;
      MinRankIsLeast(p, s);
      forall y ensures y in rest <==> y in s && p.Rank(y) == MinRank(p, s) {
        RestIsBest(p, s, y);
      }
      NarrowKeepsMinima(init, rest, x);
      var least :| least in s && p.Rank(least) == MinRank(p, s);
      if x in s && forall y | y in s :: Compare(ps, x, y) <= 0 {
        assert Compare(ps, x, least) <= 0;
      }
    }
  }

  lemma RestIsBest(p: Policy, s: seq<Instance>, y: Instance)
    requires !p.Custom? && s != []
    ensures var rest := if Preferred(p, s) == [] then s else Preferred(p, s);
            rest != [] && (y in rest <==> y in s && p.Rank(y) == MinRank(p, s))
  {
    MinRankIsLeast(p, s);
    WithRankElements(p, s, MinRank(p, s), y);
    if p.ByTrait() {
      var least :| least in s && p.Rank(least) == MinRank(p, s);
      WithRankElements(p, s, 0, y);
      WithRankElements(p, s, 0, least);
      if Preferred(p, s) == [] {
        assert p.Rank(least) == 1;
      } else {
        WithRankElements(p, s, 0, Preferred(p, s)[0]);
      }
    } else {
      BestIsNonEmpty(p, s);
    }
  }

  lemma {:induction false} WithRankKeepsOrder(p: Policy, s: seq<Instance>, r: int)
    requires AscendingNames(s)
    ensures AscendingNames(WithRank(p, s, r))
  {
    if s != [] {
      var init := WithRank(p, s[..|s| - 1], r);
      WithRankKeepsOrder(p, s[..|s| - 1], r);
      forall x | x in init ensures Less(x.name, s[|s| - 1].name) {
        WithRankElements(p, s[..|s| - 1], r, x);
      }
    }
  }

  lemma {:induction false} NarrowKeepsOrder(ps: seq<Policy>, s: seq<Instance>)
    requires forall p | p in ps :: !p.Custom?
    requires AscendingNames(s)
    ensures AscendingNames(Narrow(ps, s))
  {
    if ps != [] {
      var p := ps[|ps| - 1];
      WithRankKeepsOrder(p, s, 0);
      if s != [] { WithRankKeepsOrder(p, s, MinRank(p, s)); }
      var preferred := Preferred(p, s);
      NarrowKeepsOrder(ps[..|ps| - 1], if preferred == [] then s else preferred);
    }
  }

  /** With built-in policies the choice from a name-sorted list is the unique instance that comes
      first by (rank under the last policy, ..., rank under the first policy, name). */
  lemma ChoiceIsLexicographicMinimum(ps: seq<Policy>, s: seq<Instance>, y: Instance)
    requires forall p | p in ps :: !p.Custom?
    requires AscendingNames(s) && s != []
    requires y in s
    ensures Narrow(ps, s) != [] && Narrow(ps, s)[0] in s
    ensures var x := Narrow(ps, s)[0];
            y == x || Compare(ps, x, y) < 0 || (Compare(ps, x, y) == 0 && Less(x.name, y.name))
  {
    NarrowIsNonEmpty(ps, s);
    NarrowKeepsOrder(ps, s);
    var kept := Narrow(ps, s);
    NarrowKeepsMinima(ps, s, kept[0]);
    NarrowKeepsMinima(ps, s, y);
    if y == kept[0] {
    } else if y in kept {
      var i :| 0 <= i < |kept| && kept[i] == y;
      assert Less(kept[0].name, kept[i].name);
    } else {
      var z :| z in s && Compare(ps, y, z) > 0;
      CompareIsTransitive(ps, kept[0], y, z);
    }
  }

  lemma {:induction false} CompareIsTransitive(ps: seq<Policy>, x: Instance, y: Instance, z: Instance)
    ensures Compare(ps, x, y) == -Compare(ps, y, x)
    ensures Compare(ps, x, y) == 0 ==> Compare(ps, x, z) == Compare(ps, y, z)
  {
    if ps != [] { CompareIsTransitive(ps[..|ps| - 1], x, y, z); }
  }

  lemma {:induction false} NarrowInTwo(a: seq<Policy>, b: seq<Policy>, s: seq<Instance>)
    ensures Narrow(a + b, s) == Narrow(a, Narrow(b, s))
  {
    if b == [] {
      assert a + b == a;
    } else {
      assert (a + b)[..|a + b| - 1] == a + b[..|b| - 1];
      var preferred := Preferred(b[|b| - 1], s);
      NarrowInTwo(a, b[..|b| - 1], if preferred == [] then s else preferred);
    }
  }

  /** The update selector picks a stopped instance exactly when the controller's own policies
      leave one among the candidates; without such policies, whenever there is one at all. */
  lemma UpdatePrefersStopped(cost: Instance -> int, custom: seq<Policy>, s: seq<Instance>)
    requires s != []
    requires forall p | p in custom :: p.WellBehaved()
    ensures Narrow(UpdatePolicies(cost, custom), s) != []
    ensures Narrow(UpdatePolicies(cost, custom), s)[0].IsNotRunning()
       <==> exists x :: x in Narrow(custom, s) && x.IsNotRunning()
    ensures custom == [] ==> Narrow(custom, s) == s
  {
    var ps := UpdatePolicies(cost, custom);
    var low := [PodDeletionCost(cost), Priority, Unready];
    NarrowIsNonEmpty(ps, s);
    NarrowIsNonEmpty(custom, s);
    var pool := Narrow(custom, s);
    NarrowInTwo(low + [NotRunning], custom, s);
    NarrowInTwo(low, [NotRunning], pool);
    assert ps == low + [NotRunning] + custom;
    var stopped := WithRank(NotRunning, pool, 0);
    assert [NotRunning][..0] == [];
    assert Narrow([NotRunning], pool) == if stopped == [] then pool else stopped;
    var x := Narrow(ps, s)[0];
    NarrowComesFrom(low, Narrow([NotRunning], pool), x);
    WithRankElements(NotRunning, pool, 0, x);
    forall y | y in pool && y.IsNotRunning() ensures stopped != [] {
      WithRankElements(NotRunning, pool, 0, y);
    }
  }

  /** A policy that looks for a trait leaves those that have it, or everybody. */
  lemma NarrowByTrait(p: Policy, s: seq<Instance>)
    requires p.ByTrait()
    ensures Narrow([p], s) == if WithRank(p, s, 0) == [] then s else WithRank(p, s, 0)
  {
    assert [p][..0] == [];
  }

  /** The built-in scale-in order among instances none of which has excess capacity: stopped ones
      first, then those that are not ready or not up to date. */
  lemma ScaleInPrefersDown(cost: Instance -> int, s: seq<Instance>)
    requires s != [] && forall x | x in s :: !x.Observed(x.capacityExceedsRequest, True)
    ensures Narrow(ScaleInPolicies(cost, []), s) != []
    ensures var x := Narrow(ScaleInPolicies(cost, []), s)[0];
            && x in s
            && ((exists y :: y in s && y.IsNotRunning()) ==> x.IsNotRunning())
            && ((exists y :: y in s && (!y.IsReady() || !y.IsUpToDate())) ==>
                  x.IsNotRunning() || !x.IsReady() || !x.IsUpToDate())
  {
    hide Narrow, Instance.IsNotRunning, Instance.IsReady, Instance.IsUpToDate, WithRank;
    var ps, low := ScaleInPolicies(cost, []), [Newer, PodDeletionCost(cost), Priority];
    assert ps == low + [Unready] + [NotRunning] + [CapacityExceedsRequest];
    NarrowInTwo(low + [Unready] + [NotRunning], [CapacityExceedsRequest], s);
    NarrowByTrait(CapacityExceedsRequest, s);
    var excess := WithRank(CapacityExceedsRequest, s, 0);
    if excess != [] { WithRankElements(CapacityExceedsRequest, s, 0, excess[0]); }
    assert Narrow([CapacityExceedsRequest], s) == s;
    NarrowInTwo(low + [Unready], [NotRunning], s);
    NarrowByTrait(NotRunning, s);
    var pool := Narrow([NotRunning], s);
    NarrowInTwo(low, [Unready], pool);
    NarrowByTrait(Unready, pool);
    var last := Narrow([Unready], pool);
    NarrowIsNonEmpty(ps, s);
    var x := Narrow(ps, s)[0];
    NarrowComesFrom(low, last, x);
    forall y ensures y in WithRank(NotRunning, s, 0) <==> y in s && y.IsNotRunning() {
      WithRankElements(NotRunning, s, 0, y);
    }
    forall y ensures y in WithRank(Unready, pool, 0) <==> y in pool && (!y.IsUpToDate() || !y.IsReady()) {
      WithRankElements(Unready, pool, 0, y);
    }
  }
}
