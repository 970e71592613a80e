/** The topology scheduler and the scale-in policy that group controllers make of it: it follows the
    hooks of the actor and names the instances that may go next. */
module Topology {
  import opened Wrappers
  import opened Ordering
  import opened Instances
  import opened Selection
  import opened Fleets
  import opened Actors

  /** A declared topology, by its encoding, with its weight. */
  datatype Spot = Spot(topo: string, weight: int)

  /** Where each instance is: the index of a declared topology, or their number if it is in none. */
  type Placement = map<string, nat>

  /** The last declared topology of that encoding among the first `k`. */
  function LastSpot(spots: seq<Spot>, k: nat, topo: string): nat
    requires k <= |spots|
    ensures LastSpot(spots, k, topo) <= |spots|
  {
    if k == 0 then |spots|
    else if spots[k - 1].topo == topo then k - 1
    else LastSpot(spots, k - 1, topo)
  }

  function IndexOf(spots: seq<Spot>, topo: string): nat { LastSpot(spots, |spots|, topo) }

  /** An instance is in the last declared topology that is its own, or in none. */
  lemma {:induction false} IndexOfExactly(spots: seq<Spot>, topo: string, i: nat)
    requires i < |spots| && spots[i].topo == topo && forall j | i < j < |spots| :: spots[j].topo != topo
    ensures IndexOf(spots, topo) == i
  {
    LastSpotBelow(spots, |spots|, topo, i);
  }

  lemma {:induction false} LastSpotBelow(spots: seq<Spot>, k: nat, topo: string, i: nat)
    requires i < k <= |spots| && spots[i].topo == topo && forall j | i < j < k :: spots[j].topo != topo
    ensures LastSpot(spots, k, topo) == i
  {
    if i < k - 1 { LastSpotBelow(spots, k - 1, topo, i); }
  }

  lemma {:induction false} NowhereDeclared(spots: seq<Spot>, k: nat, topo: string)
    requires k <= |spots| && forall j | 0 <= j < k :: spots[j].topo != topo
    ensures LastSpot(spots, k, topo) == |spots|
  {
    if k > 0 { NowhereDeclared(spots, k - 1, topo); }
  }

  function TotalWeight(spots: seq<Spot>): int
  {
    if spots == [] then 0 else TotalWeight(spots[..|spots| - 1]) + spots[|spots| - 1].weight
  }

  /** As the API server admits them. */
  predicate Weighted(spots: seq<Spot>)
  {
    forall i | 0 <= i < |spots| :: spots[i].weight >= 1
  }

  function NamesAt(p: Placement, i: nat): set<string> { set n | n in p && p[n] == i }

  /** The instances in some declared topology. */
  function Settled(p: Placement, unknown: nat): set<string> { set n | n in p && p[n] != unknown }

  // ---------------------------------------------------------------- who may go next

  /** A topology's last instance counts for less than none. */
  function Count(spots: seq<Spot>, p: Placement, i: nat): int
  {
    if |NamesAt(p, i)| == 1 then -|spots| else |NamesAt(p, i)|
  }

  function Score(spots: seq<Spot>, p: Placement, i: nat): int
    requires i < |spots|
  {
    Count(spots, p, i) * TotalWeight(spots) - |Settled(p, |spots|)| * spots[i].weight
  }

  /** Where the running maximum starts. */
  function Lowest(spots: seq<Spot>, p: Placement): int
  {
    -(|Settled(p, |spots|)| + |spots|) * TotalWeight(spots)
  }

  predicate InUse(p: Placement, i: nat) { NamesAt(p, i) != {} }

  /** The topology has the best score of those in use. */
  predicate IsTop(spots: seq<Spot>, p: Placement, i: nat)
  {
    && i < |spots| && InUse(p, i) && Score(spots, p, i) >= Lowest(spots, p)
    && forall j | 0 <= j < |spots| && InUse(p, j) :: Score(spots, p, j) <= Score(spots, p, i)
  }

  /** Instances outside the declared topologies go first, then those of the best scores. */
  function Candidates(spots: seq<Spot>, p: Placement): set<string>
  {
    var unknown := NamesAt(p, |spots|);
    if unknown != {} then unknown else set n | n in p && IsTop(spots, p, p[n])
  }

  lemma InUseExactly(p: Placement, i: nat)
    ensures InUse(p, i) <==> exists n :: n in p && p[n] == i
  {
    if n :| n in p && p[n] == i { assert n in NamesAt(p, i); }
  }

  lemma {:induction false} WeightBounds(spots: seq<Spot>, i: nat)
    requires Weighted(spots) && i < |spots|
    ensures 1 <= spots[i].weight <= TotalWeight(spots)
  {
    var n := |spots| - 1;
    if i < n {
      WeightBounds(spots[..n], i);
    } else if n > 0 {
      WeightBounds(spots[..n], 0);
    }
  }

  /** No topology in use scores below the start of the running maximum. */
  lemma ScoreIsHighEnough(spots: seq<Spot>, p: Placement, i: nat)
    requires Weighted(spots) && i < |spots| && InUse(p, i)
    ensures Score(spots, p, i) >= Lowest(spots, p)
  {
    hide TotalWeight, NamesAt, Settled, Weighted;
    WeightBounds(spots, i);
    var w, total, k, c := spots[i].weight, TotalWeight(spots), |spots|, |Settled(p, |spots|)|;
    Scaled(total, -k, Count(spots, p, i));
    Scaled(c, w, total);
    assert -(c + k) * total == -k * total - c * total;
  }

  lemma Scaled(w: int, a: int, b: int)
    requires 0 <= w && a <= b
    ensures a * w <= b * w && w * a <= w * b
  {
  }

  /** Some topology in use among the first `m` scores best. */
  lemma {:induction false} BestInUse(spots: seq<Spot>, p: Placement, m: nat) returns (top: nat)
    requires m <= |spots| && exists i :: 0 <= i < m && InUse(p, i)
    ensures top < m && InUse(p, top)
    ensures forall j | 0 <= j < m && InUse(p, j) :: Score(spots, p, j) <= Score(spots, p, top)
  {
    hide InUse, Score;
    var n := m - 1;
    if exists i :: 0 <= i < n && InUse(p, i) {
      top := BestInUse(spots, p, n);
      if InUse(p, n) && Score(spots, p, n) > Score(spots, p, top) { top := n; }
    } else {
      top := n;
    }
  }

  /** As long as there is an instance, some instance may go. */
  lemma SomeoneMayGo(spots: seq<Spot>, p: Placement)
    requires Weighted(spots) && p != map[] && forall n | n in p :: p[n] <= |spots|
    ensures Candidates(spots, p) != {}
  {
    hide Score, Lowest, Weighted;
    if NamesAt(p, |spots|) == {} {
      var n :| n in p;
      assert p[n] == |spots| <==> n in NamesAt(p, |spots|);
      InUseExactly(p, p[n]);
      var top := BestInUse(spots, p, |spots|);
      ScoreIsHighEnough(spots, p, top);
      InUseExactly(p, top);
      var x :| x in p && p[x] == top;
      assert x in Candidates(spots, p);
    }
  }

  /** Who may go next: instances outside the declared topologies before all others; and else those of a topology
      that is over its share by the most, its share of the instances being its share of the weights, and a
      topology's last instance counting against it. */
  lemma MostOverItsShare(spots: seq<Spot>, p: Placement, n: string)
    requires n in Candidates(spots, p)
    ensures n in p
    ensures (exists x :: x in p && p[x] == |spots|) ==> p[n] == |spots|
    ensures (forall x | x in p :: p[x] != |spots|) ==>
              && p[n] < |spots|
              && forall x | x in p && p[x] < |spots| && |NamesAt(p, p[x])| >= 2 && |NamesAt(p, p[n])| >= 2 ::
                   |NamesAt(p, p[x])| * TotalWeight(spots) - |p| * spots[p[x]].weight <=
                     |NamesAt(p, p[n])| * TotalWeight(spots) - |p| * spots[p[n]].weight
  {
    hide TotalWeight;
    if x :| x in p && p[x] == |spots| { assert x in NamesAt(p, |spots|); }
    if forall x | x in p :: p[x] != |spots| {
      assert NamesAt(p, |spots|) == {};
      assert Settled(p, |spots|) == p.Keys;
      forall x | x in p && p[x] < |spots| ensures InUse(p, p[x]) { InUseExactly(p, p[x]); }
    }
  }

  // ---------------------------------------------------------------- a last instance is spared

  /** The first `m` topologies' scores without the exception for a last instance. */
  function PlainScores(spots: seq<Spot>, p: Placement, m: nat, weight: int, count: int): int
    requires m <= |spots|
  {
    if m == 0 then 0
    else PlainScores(spots, p, m - 1, weight, count) + |NamesAt(p, m - 1)| * weight - count * spots[m - 1].weight
  }

  /** The instances of the first `m` topologies. */
  function Among(p: Placement, m: nat): set<string> { set n | n in p && p[n] < m }

  lemma AmongGrows(p: Placement, m: nat)
    ensures |Among(p, m + 1)| == |Among(p, m)| + |NamesAt(p, m)|
  {
    assert Among(p, m + 1) == Among(p, m) + NamesAt(p, m);
  }

  lemma {:induction false} PlainScoresSum(spots: seq<Spot>, p: Placement, m: nat, weight: int, count: int)
    requires m <= |spots|
    ensures PlainScores(spots, p, m, weight, count) == |Among(p, m)| * weight - count * TotalWeight(spots[..m])
  {
    hide NamesAt, Among;
    if m == 0 {
      assert spots[..m] == [];
      NoneAmong(p);
    } else {
      PlainScoresSum(spots, p, m - 1, weight, count);
      AmongGrows(p, m - 1);
      assert spots[..m][..m - 1] == spots[..m - 1];
      Spread(|Among(p, m - 1)|, |NamesAt(p, m - 1)|, weight);
      Spread(TotalWeight(spots[..m - 1]), spots[m - 1].weight, count);
    }
  }

  lemma NoneAmong(p: Placement)
    ensures Among(p, 0) == {}
  {
  }

  lemma Spread(a: int, b: int, c: int)
    ensures (a + b) * c == a * c + b * c && c * (a + b) == c * a + c * b
  {
  }

  /** If a topology down to one instance scores best, the others' scores are too low to sum up to zero. */
  lemma {:induction false} TooLow(spots: seq<Spot>, p: Placement, m: nat, single: nat, heavy: nat)
    requires Weighted(spots) && m <= |spots| && heavy < |spots| && single < |spots|
    requires IsTop(spots, p, single) && |NamesAt(p, single)| == 1 && |NamesAt(p, heavy)| >= 2
    ensures PlainScores(spots, p, m, TotalWeight(spots), |Settled(p, |spots|)|) <=
              (if heavy < m then m - 1 - |spots| else m) * TotalWeight(spots)
  {
    hide NamesAt, Settled, TotalWeight, Weighted, Lowest;
    if m > 0 {
      TooLow(spots, p, m - 1, single, heavy);
      var w, c, k, j := TotalWeight(spots), |Settled(p, |spots|)|, |spots|, m - 1;
      WeightBounds(spots, j);
      WeightBounds(spots, single);
      Scaled(c, 0, spots[j].weight);
      Scaled(c, 0, spots[single].weight);
      if |NamesAt(p, j)| >= 2 {
        assert InUse(p, j);
        assert |NamesAt(p, j)| * w - c * spots[j].weight <= -k * w;
        OneMoreScore(m, heavy, k, w, -k);
      } else {
        Scaled(w, |NamesAt(p, j)|, 1);
        OneMoreScore(m, heavy, k, w, 1);
      }
    }
  }

  /** The bound of `TooLow` after one more topology whose plain score is at most `score` weights. */
  lemma OneMoreScore(m: nat, heavy: nat, k: nat, w: int, score: int)
    requires 0 < m <= k && 0 <= w && (score + k == 0 || (score == 1 && heavy != m - 1))
    ensures (if heavy < m - 1 then m - 2 - k else m - 1) * w + score * w <= (if heavy < m then m - 1 - k else m) * w
  {
    var before, after := if heavy < m - 1 then m - 2 - k else m - 1, if heavy < m then m - 1 - k else m;
    Spread(before, score, w);
    Scaled(w, before + score, after);
  }

  /** The only instance of a topology goes only if every topology in use is down to one. */
  lemma LastInstanceIsSpared(spots: seq<Spot>, p: Placement, n: string, heavy: nat)
    requires Weighted(spots) && NamesAt(p, |spots|) == {} && (forall x | x in p :: p[x] <= |spots|)
    requires n in Candidates(spots, p) && heavy < |spots| && |NamesAt(p, heavy)| >= 2
    ensures n in p && |NamesAt(p, p[n])| >= 2
  {
    hide Weighted, TotalWeight, Lowest, Score;
    assert n in NamesAt(p, p[n]);
    if |NamesAt(p, p[n])| < 2 {
      OnlyName(NamesAt(p, p[n]), n);
      var k, w := |spots|, TotalWeight(spots);
      AllSettled(p, k);
      PlainScoresSum(spots, p, k, w, |Settled(p, k)|);
      assert spots[..k] == spots;
      TooLow(spots, p, k, p[n], heavy);
      WeightBounds(spots, heavy);
      assert false;
    }
  }

  lemma AllSettled(p: Placement, unknown: nat)
    requires NamesAt(p, unknown) == {} && forall n | n in p :: p[n] <= unknown
    ensures Settled(p, unknown) == Among(p, unknown)
  {
    assert forall n | n in p :: p[n] == unknown <==> n in NamesAt(p, unknown);
  }

  lemma OnlyName(s: set<string>, n: string)
    requires n in s && |s| < 2
    ensures |s| == 1
  {
    assert s == {n} + (s - {n});
  }

  // ---------------------------------------------------------------- an even spread is kept

  predicate EqualWeights(spots: seq<Spot>)
  {
    Weighted(spots) && forall i, j | 0 <= i < |spots| && 0 <= j < |spots| :: spots[i].weight == spots[j].weight
  }

  /** No topology has more than one instance more than another. */
  predicate Even(spots: seq<Spot>, p: Placement)
  {
    && NamesAt(p, |spots|) == {} && (forall n | n in p :: p[n] <= |spots|)
    && forall i, j | 0 <= i < |spots| && 0 <= j < |spots| :: |NamesAt(p, i)| <= |NamesAt(p, j)| + 1
  }

  /** With equal weights, the best score is the best count. */
  lemma TopHasMost(spots: seq<Spot>, p: Placement, i: nat, j: nat)
    requires EqualWeights(spots) && IsTop(spots, p, i) && j < |spots|
    ensures |NamesAt(p, j)| <= |NamesAt(p, i)|
  {
    hide NamesAt, Settled, TotalWeight, Lowest;
    if |NamesAt(p, j)| > |NamesAt(p, i)| {
      assert InUse(p, j) && Count(spots, p, j) >= Count(spots, p, i) + 1;
      WeightBounds(spots, i);
      assert spots[j].weight == spots[i].weight;
      Scaled(TotalWeight(spots), Count(spots, p, i) + 1, Count(spots, p, j));
      Spread(Count(spots, p, i), 1, TotalWeight(spots));
      assert false;
    }
  }

  /** Taking away whoever may go keeps an even spread even. */
  lemma EvenSpreadIsKept(spots: seq<Spot>, p: Placement, n: string)
    requires EqualWeights(spots) && Even(spots, p) && n in Candidates(spots, p)
    ensures Even(spots, p - {n})
  {
    hide IsTop, EqualWeights, NamesAt;
    var q, i := p - {n}, p[n];
    assert p == q[n := i];
    TopIsDeclared(spots, p, i);
    forall j: nat ensures NamesAt(p, j) == if j == i then NamesAt(q, j) + {n} else NamesAt(q, j) {
      PlacedAt(q, n, i, j);
    }
    PlacedAt(q, n, i, i);
    forall j | 0 <= j < |spots| ensures |NamesAt(p, j)| <= |NamesAt(p, i)| { TopHasMost(spots, p, i, j); }
  }

  // ---------------------------------------------------------------- the scheduler

  class Scheduler {
    const spots: seq<Spot>
    const hashToIndex: map<string, nat>
    const totalWeight: int
    var names: seq<set<string>>
    var nameToIndex: Placement
    var totalCount: int

    ghost predicate Valid()
      reads this
    {
      && (forall t :: IndexOf(spots, t) == if t in hashToIndex then hashToIndex[t] else |spots|)
      && (forall t | t in hashToIndex :: hashToIndex[t] < |spots|)
      && totalWeight == TotalWeight(spots)
      && |names| == |spots| + 1 && (forall i | 0 <= i <= |spots| :: names[i] == NamesAt(nameToIndex, i))
      && (forall n | n in nameToIndex :: nameToIndex[n] <= |spots|)
      && totalCount == |Settled(nameToIndex, |spots|)|
    }

    constructor (spots: seq<Spot>)
      ensures Valid() && this.spots == spots && nameToIndex == map[]
    {
      var hashes: map<string, nat>, weight := map[], 0;
      for i := 0 to |spots|
        invariant forall t :: LastSpot(spots, i, t) == if t in hashes then hashes[t] else |spots|
        invariant weight == TotalWeight(spots[..i]) && forall t | t in hashes :: hashes[t] < i
      {
        assert spots[..i + 1][..i] == spots[..i];
        hashes := hashes[spots[i].topo := i];
        weight := weight + spots[i].weight;
      }
      assert spots[..|spots|] == spots;
      this.spots, hashToIndex, totalWeight := spots, hashes, weight;
      names, nameToIndex, totalCount := seq(|spots| + 1, i => {}), map[], 0;
    }

    method Add(name: string, topo: string)
      requires Valid()
      modifies this
      ensures Valid() && nameToIndex == old(nameToIndex)[name := IndexOf(spots, topo)]
    {
      hide LastSpot, TotalWeight;
      if name in nameToIndex {
        Del(name);
      }
      ghost var before := nameToIndex;
      var index := |names| - 1;
      if topo in hashToIndex {
        index := hashToIndex[topo];
        totalCount := totalCount + 1;
      }
      assert index == IndexOf(spots, topo);
      names := names[index := names[index] + {name}];
      nameToIndex := nameToIndex[name := index];
      PlacedOne(before, name, index, |spots|);
    }

    method Del(name: string)
      requires Valid()
      modifies this
      ensures Valid() && nameToIndex == old(nameToIndex) - {name}
    {
      hide LastSpot, IndexOf, TotalWeight;
      if name !in nameToIndex {
        return;
      }
      ghost var before := nameToIndex;
      var index := nameToIndex[name];
      nameToIndex := nameToIndex - {name};
      names := names[index := names[index] - {name}];
      if index != |names| - 1 {
        totalCount := totalCount - 1;
      }
      PlacedOne(nameToIndex, name, index, |spots|);
      assert before == nameToIndex[name := index];
    }

    /** The indexes of the best scores, by a running maximum. */
    method BestSpots() returns (chosen: seq<nat>)
      requires Valid()
      ensures forall i :: i in chosen <==> IsTop(spots, nameToIndex, i)
    {
      hide Score, Lowest, TotalWeight, LastSpot, IndexOf, NamesAt, Settled;
      var maximum := -(totalCount + |names| - 1) * totalWeight;
      StartIsLowest();
      chosen := [];
      for i := 0 to |spots|
        invariant maximum >= Lowest(spots, nameToIndex)
        invariant forall j | 0 <= j < i && InUse(nameToIndex, j) :: Score(spots, nameToIndex, j) <= maximum
        invariant forall j :: j in chosen <==>
                    0 <= j < i && InUse(nameToIndex, j) && Score(spots, nameToIndex, j) == maximum
        invariant chosen == [] ==> maximum == Lowest(spots, nameToIndex)
      {
        var count := |names[i]|;
        if count == 0 {
          continue;
        }
        if |names[i]| == 1 {
          count := -|names| + 1;
        }
        var score := count * totalWeight - totalCount * spots[i].weight;
        ScoreIsComputed(i, count, score);
        if score > maximum {
          maximum := score;
          chosen := [i];
        } else if score == maximum {
          chosen := chosen + [i];
        }
      }
      ghost var p := nameToIndex;
      forall i ensures i in chosen <==> IsTop(spots, p, i) {
        if IsTop(spots, p, i) && chosen != [] {
          assert chosen[0] in chosen;
        }
      }
    }

    lemma StartIsLowest()
      requires Valid()
      ensures -(totalCount + |names| - 1) * totalWeight == Lowest(spots, nameToIndex)
    {
      hide LastSpot, IndexOf, TotalWeight;
      assert -(totalCount + |names| - 1) == -(totalCount + |spots|);
    }

    lemma ScoreIsComputed(i: nat, count: int, score: int)
      requires Valid() && i < |spots| && names[i] != {}
      requires count == if |names[i]| == 1 then -|names| + 1 else |names[i]|
      requires score == count * totalWeight - totalCount * spots[i].weight
      ensures InUse(nameToIndex, i) && score == Score(spots, nameToIndex, i)
    {
      hide LastSpot, IndexOf, TotalWeight;
      assert count == Count(spots, nameToIndex, i);
    }

    method NextDel() returns (next: seq<string>)
      requires Valid()
      ensures next == Sorted(Candidates(spots, nameToIndex))
    {
      hide LastSpot, IndexOf, TotalWeight, IsTop;
      var unknown := names[|names| - 1];
      if |unknown| != 0 {
        return Sorted(unknown);
      }
      var chosen := BestSpots();
      var all := {};
      for k := 0 to |chosen|
        invariant all == set n | n in nameToIndex && nameToIndex[n] in chosen[..k]
      {
        assert chosen[k] in chosen;
        TopIsDeclared(spots, nameToIndex, chosen[k]);
        all := all + names[chosen[k]];
        assert chosen[..k + 1] == chosen[..k] + [chosen[k]];
      }
      assert chosen[..|chosen|] == chosen;
      assert all == Candidates(spots, nameToIndex);
      return Sorted(all);
    }
  }

  lemma TopIsDeclared(spots: seq<Spot>, p: Placement, i: nat)
    requires IsTop(spots, p, i)
    ensures i < |spots|
  {
  }

  /** What placing one more instance adds. */
  lemma PlacedOne(p: Placement, n: string, i: nat, unknown: nat)
    requires n !in p
    ensures forall j: nat :: NamesAt(p[n := i], j) == if j == i then NamesAt(p, j) + {n} else NamesAt(p, j)
    ensures n !in NamesAt(p, i)
    ensures |Settled(p[n := i], unknown)| == |Settled(p, unknown)| + if i == unknown then 0 else 1
  {
    hide NamesAt, Settled;
    forall j: nat ensures NamesAt(p[n := i], j) == if j == i then NamesAt(p, j) + {n} else NamesAt(p, j) {
      PlacedAt(p, n, i, j);
    }
    PlacedAt(p, n, i, i);
    NowSettled(p, n, i, unknown);
  }

  lemma PlacedAt(p: Placement, n: string, i: nat, j: nat)
    requires n !in p
    ensures NamesAt(p[n := i], j) == (if j == i then NamesAt(p, j) + {n} else NamesAt(p, j)) && n !in NamesAt(p, j)
  {
  }

  lemma NowSettled(p: Placement, n: string, i: nat, unknown: nat)
    requires n !in p
    ensures |Settled(p[n := i], unknown)| == |Settled(p, unknown)| + if i == unknown then 0 else 1
  {
    assert Settled(p[n := i], unknown) == if i == unknown then Settled(p, unknown) else Settled(p, unknown) + {n};
  }

  // ---------------------------------------------------------------- the policy

  function Place(spots: seq<Spot>, p: Placement, hook: Hook): Placement
  {
    match hook
    case AddHook(o) => p[o.name := IndexOf(spots, o.topology)]
    case UpdateHook(o, _) => p[o.name := IndexOf(spots, o.topology)]
    case DeleteHook(n) => p - {n}
  }

  /** Where the instances are after the hooks. */
  function Placed(spots: seq<Spot>, p: Placement, h: seq<Hook>): Placement
  {
    if h == [] then p else Place(spots, Placed(spots, p, h[..|h| - 1]), h[|h| - 1])
  }

  predicate Mentions(hook: Hook, n: string)
  {
    match hook case AddHook(o) => o.name == n case UpdateHook(o, _) => o.name == n case DeleteHook(x) => x == n
  }

  /** The last hook about a name decides: added and updated instances are in their topology, deleted ones nowhere. */
  lemma {:induction false} LastHookDecides(spots: seq<Spot>, p: Placement, h: seq<Hook>, n: string, i: nat)
    requires i < |h| && Mentions(h[i], n) && forall j | i < j < |h| :: !Mentions(h[j], n)
    ensures var q := Placed(spots, p, h);
            match h[i]
            case AddHook(o) => n in q && q[n] == IndexOf(spots, o.topology)
            case UpdateHook(o, _) => n in q && q[n] == IndexOf(spots, o.topology)
            case DeleteHook(_) => n !in q
  {
    if i < |h| - 1 { LastHookDecides(spots, p, h[..|h| - 1], n, i); }
  }

  /** A name that no hook is about stays where it was. */
  lemma {:induction false} UnmentionedStays(spots: seq<Spot>, p: Placement, h: seq<Hook>, n: string)
    requires forall j | 0 <= j < |h| :: !Mentions(h[j], n)
    ensures n in Placed(spots, p, h) <==> n in p
    ensures n in p ==> Placed(spots, p, h)[n] == p[n]
  {
    if h != [] { UnmentionedStays(spots, p, h[..|h| - 1], n); }
  }

  /** The instances with one of the names, in order. */
  function KeepNamed(s: seq<Instance>, names: set<string>): seq<Instance>
  {
    if s == [] then []
    else
      var init := KeepNamed(s[..|s| - 1], names);
      if s[|s| - 1].name in names then init + [s[|s| - 1]] else init
  }

  /** The scale-in policy of a group whose instances were placed as in `p` before the hooks. */
  function SpreadPolicies(spots: seq<Spot>, p: Placement): Policies
  {
    h => [Custom(s => KeepNamed(s, Candidates(spots, Placed(spots, p, h))))]
  }

  class TopologyPolicy {
    const all: Scheduler
    // Where the instances were at first, and the hooks since.
    ghost const start: Placement
    ghost var hooks: seq<Hook>

    ghost predicate Valid()
      reads this, all
    {
      all.Valid() && all.nameToIndex == Placed(all.spots, start, hooks)
    }

    /** Instances that the updater ignores or takes away are not placed. */
    constructor (spots: seq<Spot>, rs: seq<Instance>)
      ensures Valid() && fresh(all) && all.spots == spots && hooks == [] && start == PlaceAll(spots, rs)
    {
      var s := new Scheduler(spots);
      for i := 0 to |rs|
        invariant fresh(s) && s.Valid() && s.spots == spots && s.nameToIndex == PlaceAll(spots, rs[..i])
      {
        assert rs[..i + 1][..i] == rs[..i];
        if rs[i].IsDeleting() {
          continue;
        }
        s.Add(rs[i].name, rs[i].topology);
      }
      assert rs[..|rs|] == rs;
      all, hooks, start := s, [], s.nameToIndex;
    }

    method Add(o: Instance)
      requires Valid()
      modifies this`hooks, all
      ensures Valid() && hooks == old(hooks) + [AddHook(o)]
    {
      all.Add(o.name, o.topology);
      hooks := hooks + [AddHook(o)];
    }

    method Update(o: Instance, outdated: Instance)
      requires Valid()
      modifies this`hooks, all
      ensures Valid() && hooks == old(hooks) + [UpdateHook(o, outdated)]
    {
      all.Add(o.name, o.topology);
      hooks := hooks + [UpdateHook(o, outdated)];
    }

    method Delete(name: string)
      requires Valid()
      modifies this`hooks, all
      ensures Valid() && hooks == old(hooks) + [DeleteHook(name)]
    {
      all.Del(name);
      hooks := hooks + [DeleteHook(name)];
    }

    /** The scale-in preference: after any hooks it is what `SpreadPolicies` says of them. */
    method PreferDeletion(allowed: seq<Instance>) returns (preferred: seq<Instance>)
      requires Valid()
      ensures preferred == Preferred(SpreadPolicies(all.spots, start)(hooks)[0], allowed)
    {
      hide Candidates, Placed;
      if |allowed| == 0 {
        return [];
      }
      var next := all.NextDel();
      ghost var names := Candidates(all.spots, all.nameToIndex);
      preferred := [];
      for i := 0 to |allowed|
        invariant preferred == KeepNamed(allowed[..i], names)
      {
        assert allowed[..i + 1][..i] == allowed[..i];
        var found := Matches(allowed[i], next);
        SortedHolds(names, allowed[i].name);
        preferred := preferred + found;
      }
      assert allowed[..|allowed|] == allowed;
    }
  }

  /** The item, once for each of the names it has. */
  method Matches(item: Instance, names: seq<string>) returns (found: seq<Instance>)
    requires Ascending(names)
    ensures found == if item.name in names then [item] else []
  {
    found := [];
    for k := 0 to |names|
      invariant found == if item.name in names[..k] then [item] else []
    {
      assert names[..k + 1] == names[..k] + [names[k]];
      NoRepeats(names, k);
      if item.name == names[k] {
        found := found + [item];
      }
    }
    assert names[..|names|] == names;
  }

  /** An empty topology is refused. */
  method NewTopologyPolicy(spots: seq<Spot>, rs: seq<Instance>) returns (r: Option<TopologyPolicy>)
    ensures r.None? <==> exists i :: 0 <= i < |spots| && spots[i].topo == ""
    ensures r.Some? ==>
              && fresh(r.value) && fresh(r.value.all) && r.value.Valid()
              && r.value.all.spots == spots && r.value.hooks == [] && r.value.start == PlaceAll(spots, rs)
  {
    for i := 0 to |spots|
      invariant forall j | 0 <= j < i :: spots[j].topo != ""
    {
      if spots[i].topo == "" {
        return None;
      }
    }
    var p := new TopologyPolicy(spots, rs);
    return Some(p);
  }

  lemma NoRepeats(names: seq<string>, k: nat)
    requires Ascending(names) && k < |names|
    ensures names[k] !in names[..k]
  {
    LessIrreflexive(names[k]);
  }

  function PlaceAll(spots: seq<Spot>, rs: seq<Instance>): Placement
  {
    if rs == [] then map[]
    else
      var p, r := PlaceAll(spots, rs[..|rs| - 1]), rs[|rs| - 1];
      if r.IsDeleting() then p else p[r.name := IndexOf(spots, r.topology)]
  }

  lemma {:induction false} PlaceAllHolds(spots: seq<Spot>, rs: seq<Instance>, r: Instance)
    requires r in rs && !r.IsDeleting()
    ensures r.name in PlaceAll(spots, rs)
  {
    var n := |rs| - 1;
    if r != rs[n] {
      assert rs == rs[..n] + [rs[n]];
      PlaceAllHolds(spots, rs[..n], r);
    }
  }

  /** Exactly the instances are placed that are not being deleted, marked for it, offline or drained. */
  lemma {:induction false} PlacedExactly(spots: seq<Spot>, rs: seq<Instance>, n: string)
    ensures n in PlaceAll(spots, rs) <==>
              exists r :: r in rs && r.name == n && !r.deleting && "core.pingcap.com/defer-delete" !in r.annotations
                          && !r.offline && !(r.storeOfflined.Some? && r.storeOfflined.value.status == True)
  {
    if rs != [] {
      var last := rs[|rs| - 1];
      PlacedExactly(spots, rs[..|rs| - 1], n);
      assert rs == rs[..|rs| - 1] + [last];
      assert last in rs;
    }
  }

  lemma {:induction false} PlaceAllInRange(spots: seq<Spot>, rs: seq<Instance>)
    ensures forall n | n in PlaceAll(spots, rs) :: PlaceAll(spots, rs)[n] <= |spots|
  {
    if rs != [] { PlaceAllInRange(spots, rs[..|rs| - 1]); }
  }

  lemma {:induction false} KeepNamedHolds(s: seq<Instance>, names: set<string>, x: Instance)
    ensures x in KeepNamed(s, names) <==> x in s && x.name in names
  {
    if s != [] {
      KeepNamedHolds(s[..|s| - 1], names, x);
      assert s == s[..|s| - 1] + [s[|s| - 1]];
    }
  }

  lemma {:induction false} KeepNamedAll(s: seq<Instance>, names: set<string>)
    requires forall x | x in s :: x.name in names
    ensures KeepNamed(s, names) == s
  {
    if s != [] {
      assert s == s[..|s| - 1] + [s[|s| - 1]];
      KeepNamedAll(s[..|s| - 1], names);
    }
  }

  lemma SpreadIsWellBehaved(spots: seq<Spot>, p: Placement)
    ensures forall h, q | q in SpreadPolicies(spots, p)(h) :: q.WellBehaved()
  {
    forall h, q | q in SpreadPolicies(spots, p)(h) ensures q.WellBehaved() {
      forall s: seq<Instance>, i: Instance | i in q.prefer(s) ensures i in s {
        KeepNamedHolds(s, Candidates(spots, Placed(spots, p, h)), i);
      }
    }
  }

  lemma NarrowByOne(p: Policy, s: seq<Instance>)
    ensures Narrow([p], s) == if Preferred(p, s) == [] then s else Preferred(p, s)
  {
    assert [p][..0] == [];
  }

  /** The policy lets every part of a set through exactly if it prefers all of the set or none of it. */
  lemma SpreadLeavesAllExactly(spots: seq<Spot>, p: Placement, h: seq<Hook>, m: State)
    requires Named(m)
    ensures var names := Candidates(spots, Placed(spots, p, h));
            LeavesAll(SpreadPolicies(spots, p)(h), m) <==> m.Keys <= names || m.Keys !! names
  {
    hide Candidates, Narrow, List;
    var names, ps := Candidates(spots, Placed(spots, p, h)), SpreadPolicies(spots, p)(h);
    forall sub: State | Submap(sub, m)
      ensures sub.Keys <= names || sub.Keys !! names <==> Narrow(ps, List(sub)) == List(sub)
    {
      NarrowByOne(ps[0], List(sub));
      KeptExactly(sub, names);
    }
    assert Submap(m, m);
    if m.Keys <= names || m.Keys !! names {
      forall sub: State | Submap(sub, m) ensures Narrow(ps, List(sub)) == List(sub) {
        assert sub.Keys <= m.Keys;
      }
    }
  }

  lemma KeptExactly(m: State, names: set<string>)
    requires Named(m)
    ensures KeepNamed(List(m), names) == [] || KeepNamed(List(m), names) == List(m) <==>
              m.Keys <= names || m.Keys !! names
  {
    hide List;
    var l := List(m);
    var kept := KeepNamed(l, names);
    forall x ensures x in l <==> x.name in m && m[x.name] == x { ListHolds(m, x); }
    forall x ensures x in kept <==> x in l && x.name in names { KeepNamedHolds(l, names, x); }
    if m.Keys <= names { KeepNamedAll(l, names); }
    if m.Keys !! names && kept != [] { assert kept[0] in kept; }
    if kept == l { forall n | n in m ensures n in names { assert m[n] in l; } }
    if kept == [] { forall n | n in m ensures n !in names { assert m[n] in l; } }
  }

  // ---------------------------------------------------------------- without topologies

  /** What was placed at first and not deleted since is still placed. */
  lemma {:induction false} StillPlaced(spots: seq<Spot>, p: Placement, h: seq<Hook>)
    ensures p.Keys - Gone(h) <= Placed(spots, p, h).Keys
  {
    if h != [] { StillPlaced(spots, p, h[..|h| - 1]); }
  }

  lemma {:induction false} NowhereElse(p: Placement, h: seq<Hook>)
    requires forall n | n in p :: p[n] == 0
    ensures forall n | n in Placed([], p, h) :: Placed([], p, h)[n] == 0
  {
    if h != [] { NowhereElse(p, h[..|h| - 1]); }
  }

  /** With no topology declared, everybody that is left may go, so the policy leaves the choice to the
      built-in ones. */
  lemma NoTopologies(p: Placement, h: seq<Hook>, m: State)
    requires Named(m) && m.Keys <= p.Keys && forall n | n in p :: p[n] == 0
    ensures LeavesAll(SpreadPolicies([], p)(h), m - Gone(h))
  {
    hide LeavesAll, Placed, SpreadPolicies;
    var q := Placed([], p, h);
    StillPlaced([], p, h);
    NowhereElse(p, h);
    assert NamesAt(q, 0) == q.Keys;
    SpreadLeavesAllExactly([], p, h, m - Gone(h));
  }
}
