/** The feature history: each feature declares its changes by revision, the generator rebuilds a
    hash-chained log of complete snapshots, and the lint accepts only appended revisions. */
module FeatureLog {
  import opened Wrappers
  import opened Ordering

  datatype Stage = Alpha | Beta | Stable | Deprecated
  datatype Definition = Definition(name: string, stage: Stage, enabled: bool)
  datatype Change = Change(rev: nat, def: Definition)
  datatype Feature = Feature(name: string, history: seq<Change>, unreloadable: seq<string>)

  /** A line of a feature's doc comment; markers are `None` if they do not parse. */
  datatype Line =
    | LogLine(change: Option<Change>)
    | UnreloadableLine(components: Option<seq<string>>)
    | CommentLine(text: string)

  datatype Entry = Entry(hash: string, prev: string, features: seq<Definition>)

  function Order(s: Stage): nat
  {
    match s case Alpha => 0 case Beta => 1 case Stable => 2 case Deprecated => 3
  }

  // ---------------------------------------------------------------- parsed histories

  /** A default that the stage allows. */
  predicate DefaultAllowed(d: Definition)
  {
    (d.stage.Alpha? ==> !d.enabled) && (d.stage.Beta? || d.stage.Stable? ==> d.enabled)
  }

  predicate Follows(old_: Change, next: Change)
  {
    old_.rev < next.rev && Order(old_.def.stage) < Order(next.def.stage)
  }

  /** Each default suits its stage, and any two changes move to a later revision and stage. */
  predicate ValidChanges(name: string, history: seq<Change>)
  {
    && (forall i | 0 <= i < |history| :: history[i].def.name == name && DefaultAllowed(history[i].def))
    && forall i, j | 0 <= i < j < |history| :: Follows(history[i], history[j])
  }

  predicate ValidFeature(f: Feature) { f.history != [] && ValidChanges(f.name, f.history) }

  predicate ValidTransition(previous: Definition, next: Definition)
  {
    if previous == next then false
    else !(Order(next.stage) <= Order(previous.stage))
  }

  /** The changes of the log markers, in source order. */
  function LogChanges(lines: seq<Line>): seq<Change>
  {
    if lines == [] then []
    else
      var init, last := LogChanges(lines[..|lines| - 1]), lines[|lines| - 1];
      if last.LogLine? && last.change.Some? then init + [last.change.value] else init
  }

  /** What the unreloadable markers say, in source order. */
  function Unreloadables(lines: seq<Line>): seq<seq<string>>
  {
    if lines == [] then []
    else
      var init, last := Unreloadables(lines[..|lines| - 1]), lines[|lines| - 1];
      if last.UnreloadableLine? && last.components.Some? then init + [last.components.value] else init
  }

  predicate Parses(l: Line)
  {
    (l.LogLine? ==> l.change.Some?) && (l.UnreloadableLine? ==> l.components.Some?)
  }

  /** Every marker parses, the log markers make a valid history that is not empty, and there is exactly
      one unreloadable marker. */
  predicate ValidDoc(name: string, lines: seq<Line>)
  {
    && (forall i | 0 <= i < |lines| :: Parses(lines[i]))
    && LogChanges(lines) != [] && ValidChanges(name, LogChanges(lines))
    && |Unreloadables(lines)| == 1
  }

  lemma {:induction false} PrefixOfDoc(lines: seq<Line>, n: nat)
    requires n <= |lines|
    ensures LogChanges(lines[..n]) <= LogChanges(lines) && Unreloadables(lines[..n]) <= Unreloadables(lines)
  {
    if n < |lines| {
      var m := |lines| - 1;
      assert lines[..m][..n] == lines[..n];
      PrefixOfDoc(lines[..m], n);
    } else {
      assert lines[..n] == lines;
    }
  }

  lemma {:induction false} LastLine(init: seq<Line>, l: Line)
    ensures LogChanges(init + [l]) ==
            LogChanges(init) + (if l.LogLine? && l.change.Some? then [l.change.value] else [])
    ensures Unreloadables(init + [l]) ==
            Unreloadables(init) + (if l.UnreloadableLine? && l.components.Some? then [l.components.value] else [])
  {
    var lines := init + [l];
    assert lines[..|lines| - 1] == init && lines[|lines| - 1] == l;
  }

  /** What one more line adds to what was read, which is all at the start of what will be. */
  lemma {:induction false} OneMoreLine(lines: seq<Line>, i: nat)
    requires i < |lines|
    ensures var l := lines[i];
            && LogChanges(lines[..i + 1]) ==
               LogChanges(lines[..i]) + (if l.LogLine? && l.change.Some? then [l.change.value] else [])
            && Unreloadables(lines[..i + 1]) ==
               Unreloadables(lines[..i])
                 + (if l.UnreloadableLine? && l.components.Some? then [l.components.value] else [])
    ensures LogChanges(lines[..i + 1]) <= LogChanges(lines) && Unreloadables(lines[..i + 1]) <= Unreloadables(lines)
  {
    hide LogChanges, Unreloadables;
    assert lines[..i + 1] == lines[..i] + [lines[i]];
    LastLine(lines[..i], lines[i]);
    PrefixOfDoc(lines, i + 1);
  }

  /** What the parser checks of a change: against its stage, and against the change before it. */
  predicate Continues(history: seq<Change>, c: Change)
  {
    && DefaultAllowed(c.def)
    && (|history| > 0 ==>
          var previous := history[|history| - 1];
          !(c.rev <= previous.rev) && ValidTransition(previous.def, c.def))
  }

  /** Comparing with the change before is enough for any two. */
  lemma ContinuesExactly(name: string, history: seq<Change>, c: Change)
    requires ValidChanges(name, history) && c.def.name == name
    ensures Continues(history, c) <==> ValidChanges(name, history + [c])
  {
    var next := history + [c];
    assert next[|history|] == c && forall i | 0 <= i < |history| :: next[i] == history[i];
  }

  /** Stages come in one order. */
  predicate LaterStage(a: Stage, b: Stage)
  {
    || (a.Alpha? && !b.Alpha?) || (a.Beta? && (b.Stable? || b.Deprecated?)) || (a.Stable? && b.Deprecated?)
  }

  /** A history is valid exactly if it is all of its feature, alpha is off and beta and stable are on by default,
      and of any two changes the later has the later revision and the later stage. */
  lemma ValidExactly(name: string, history: seq<Change>)
    ensures ValidChanges(name, history) <==>
              && (forall i | 0 <= i < |history| ::
                    var d := history[i].def;
                    && d.name == name
                    && (d.stage.Alpha? ==> !d.enabled) && (d.stage.Beta? || d.stage.Stable? ==> d.enabled))
              && forall i, j | 0 <= i < j < |history| ::
                   history[i].rev < history[j].rev && LaterStage(history[i].def.stage, history[j].def.stage)
  {
    hide LaterStage, Order;
    forall a, b: Stage ensures LaterStage(a, b) <==> Order(a) < Order(b) { StageOrder(a, b); }
  }

  lemma StageOrder(a: Stage, b: Stage)
    ensures LaterStage(a, b) <==> Order(a) < Order(b)
  {
  }

  /** A change by itself: of its feature, alpha off and beta and stable on by default. */
  predicate SuitsStage(name: string, c: Change)
  {
    && c.def.name == name && (c.def.stage.Alpha? ==> !c.def.enabled)
    && (c.def.stage.Beta? || c.def.stage.Stable? ==> c.def.enabled)
  }

  /** Of two log markers the later has the later revision and stage. */
  predicate Rise(a: Line, b: Line)
  {
    a.LogLine? && a.change.Some? && b.LogLine? && b.change.Some? ==>
      a.change.value.rev < b.change.value.rev && LaterStage(a.change.value.def.stage, b.change.value.def.stage)
  }

  predicate Rising(lines: seq<Line>) { forall i, j | 0 <= i < j < |lines| :: Rise(lines[i], lines[j]) }

  ghost predicate OneMarker(lines: seq<Line>)
  {
    exists i :: 0 <= i < |lines| && lines[i].UnreloadableLine?
                && forall j | 0 <= j < |lines| && j != i :: !lines[j].UnreloadableLine?
  }

  /** A doc comment is valid exactly if every marker parses, there is a log marker and just one unreloadable
      marker, and the changes of the log markers are valid, each by itself and any two in the order of lines. */
  lemma DocExactly(name: string, lines: seq<Line>)
    ensures ValidDoc(name, lines) <==>
              && LogLine(None) !in lines && UnreloadableLine(None) !in lines
              && (exists i :: 0 <= i < |lines| && lines[i].LogLine?) && OneMarker(lines)
              && (forall c | LogLine(Some(c)) in lines :: SuitsStage(name, c))
              && Rising(lines)
  {
    hide LogChanges, Unreloadables, ValidChanges, Rising, SuitsStage, OneMarker;
    ParsedByLine(lines);
    if LogLine(None) !in lines && UnreloadableLine(None) !in lines {
      HistoryByLine(name, lines);
      MarkersByLine(lines);
      SomeChange(lines);
    }
  }

  lemma ParsedByLine(lines: seq<Line>)
    ensures (forall i | 0 <= i < |lines| :: Parses(lines[i])) <==>
              LogLine(None) !in lines && UnreloadableLine(None) !in lines
  {
    forall i | 0 <= i < |lines| && !Parses(lines[i]) ensures lines[i] in {LogLine(None), UnreloadableLine(None)} {}
  }

  lemma SomeChange(lines: seq<Line>)
    requires LogLine(None) !in lines
    ensures LogChanges(lines) != [] <==> exists i :: 0 <= i < |lines| && lines[i].LogLine?
  {
    hide LogChanges;
    if LogChanges(lines) != [] {
      LogHolds(lines, LogChanges(lines)[0]);
    } else if i :| 0 <= i < |lines| && lines[i].LogLine? {
      LogHolds(lines, lines[i].change.value);
    }
  }

  lemma {:induction false} LogHolds(lines: seq<Line>, c: Change)
    ensures c in LogChanges(lines) <==> LogLine(Some(c)) in lines
  {
    if lines != [] {
      var n := |lines| - 1;
      assert lines == lines[..n] + [lines[n]];
      LogHolds(lines[..n], c);
    }
  }

  lemma {:induction false} HistoryByLine(name: string, lines: seq<Line>)
    ensures ValidChanges(name, LogChanges(lines)) <==>
              && (forall c | LogLine(Some(c)) in lines :: SuitsStage(name, c))
              && Rising(lines)
  {
    hide LogChanges, ValidChanges, LaterStage, SuitsStage, Rising;
    if lines == [] {
      NoLines();
      NoMarker();
      NoChanges(name);
    } else {
      var n := |lines| - 1;
      var init, l := lines[..n], lines[n];
      assert lines == init + [l];
      LastLine(init, l);
      HistoryByLine(name, init);
      RisesOneMore(init, l);
      if l.LogLine? && l.change.Some? {
        ValidOneMore(name, LogChanges(init), l.change.value);
        forall c ensures c in LogChanges(init) <==> LogLine(Some(c)) in init { LogHolds(init, c); }
        assert l in lines && forall c | LogLine(Some(c)) in lines :: c == l.change.value || LogLine(Some(c)) in init;
      } else {
        assert LogChanges(lines) == LogChanges(init);
      }
      assert forall c | LogLine(Some(c)) in init :: LogLine(Some(c)) in lines;
    }
  }

  lemma ValidOneMore(name: string, history: seq<Change>, c: Change)
    ensures ValidChanges(name, history + [c]) <==>
              && ValidChanges(name, history) && SuitsStage(name, c)
              && forall d | d in history :: Rise(LogLine(Some(d)), LogLine(Some(c)))
  {
    var next := history + [c];
    assert next[|history|] == c && forall i | 0 <= i < |history| :: next[i] == history[i];
    forall d | d in history
      ensures Rise(LogLine(Some(d)), LogLine(Some(c))) <==> Follows(d, c)
    {
      StageOrder(d.def.stage, c.def.stage);
    }
  }

  lemma RisesOneMore(init: seq<Line>, l: Line)
    ensures Rising(init + [l]) <==> Rising(init) && forall c | LogLine(Some(c)) in init :: Rise(LogLine(Some(c)), l)
  {
    hide LaterStage;
    var lines := init + [l];
    assert lines[|init|] == l && forall i | 0 <= i < |init| :: lines[i] == init[i];
  }

  lemma {:induction false} MarkersByLine(lines: seq<Line>)
    requires UnreloadableLine(None) !in lines
    ensures Unreloadables(lines) == [] <==> forall i | 0 <= i < |lines| :: !lines[i].UnreloadableLine?
    ensures |Unreloadables(lines)| == 1 <==> OneMarker(lines)
  {
    hide Unreloadables, OneMarker;
    if lines == [] {
      NoLines();
      NoMarker();
    } else {
      var n := |lines| - 1;
      assert lines == lines[..n] + [lines[n]];
      LastLine(lines[..n], lines[n]);
      MarkersByLine(lines[..n]);
      MarkersOneMore(lines[..n], lines[n]);
    }
  }

  lemma MarkersOneMore(init: seq<Line>, l: Line)
    ensures OneMarker(init + [l]) <==>
              if l.UnreloadableLine? then forall i | 0 <= i < |init| :: !init[i].UnreloadableLine? else OneMarker(init)
  {
    var lines := init + [l];
    assert lines[|init|] == l && forall i | 0 <= i < |init| :: lines[i] == init[i];
  }

  lemma NoMarker()
    ensures !OneMarker([]) && Rising([])
  {
  }

  lemma NoChanges(name: string)
    ensures ValidChanges(name, [])
  {
  }

  lemma NoLines()
    ensures LogChanges([]) == [] && Unreloadables([]) == []
  {
  }

  lemma PrefixIsValid(name: string, a: seq<Change>, b: seq<Change>)
    requires a <= b && ValidChanges(name, b)
    ensures ValidChanges(name, a)
  {
  }

  /** Reads the doc comment of one feature line by line. */
  method ParseFeature(name: string, lines: seq<Line>) returns (r: Option<Feature>)
    requires forall i | 0 <= i < |lines| && lines[i].LogLine? && lines[i].change.Some? ::
               lines[i].change.value.def.name == name
    ensures r.Some? <==> ValidDoc(name, lines)
    ensures r.Some? ==> r.value == Feature(name, LogChanges(lines), Unreloadables(lines)[0]) && ValidFeature(r.value)
  {
    hide ValidChanges, Continues, LogChanges, Unreloadables;
    var history: seq<Change> := [];
    NoChanges(name);
    NoLines();
    var unreloadable: Option<seq<string>> := None;
    for i := 0 to |lines|
      invariant forall k | 0 <= k < i :: Parses(lines[k])
      invariant history == LogChanges(lines[..i]) && ValidChanges(name, history)
      invariant Unreloadables(lines[..i]) == if unreloadable.None? then [] else [unreloadable.value]
    {
      OneMoreLine(lines, i);
      match lines[i]
      case UnreloadableLine(components) =>
        if components.None? { return None; }
        if unreloadable.Some? { return None; }
        unreloadable := components;
      case CommentLine(_) =>
      case LogLine(change) =>
        if change.None? { return None; }
        var c := change.value;
        ContinuesExactly(name, history, c);
        if !Continues(history, c) {
          if ValidChanges(name, LogChanges(lines)) {
            PrefixIsValid(name, LogChanges(lines[..i + 1]), LogChanges(lines));
          }
          return None;
        }
        history := history + [c];
    }
    assert lines[..|lines|] == lines;
    if |history| == 0 { return None; }
    if unreloadable.None? { return None; }
    return Some(Feature(name, history, unreloadable.value));
  }

  ghost predicate ValidFeatures(fs: seq<Feature>)
  {
    && (forall i | 0 <= i < |fs| :: ValidFeature(fs[i]))
    && forall i, j | 0 <= i < j < |fs| :: fs[i].name != fs[j].name
  }

  // ---------------------------------------------------------------- what is declared, in no order

  function Changes(fs: seq<Feature>): set<Change>
  {
    set i, k | 0 <= i < |fs| && 0 <= k < |fs[i].history| :: fs[i].history[k]
  }

  function Used(cs: set<Change>): set<nat> { set c | c in cs :: c.rev }

  /** At most one change of a feature at a revision, and stages only move on. */
  ghost predicate Consistent(cs: set<Change>)
  {
    forall a, b | a in cs && b in cs && a.def.name == b.def.name ::
      a == b || Follows(a, b) || Follows(b, a)
  }

  lemma ValidIsConsistent(fs: seq<Feature>)
    requires ValidFeatures(fs)
    ensures Consistent(Changes(fs))
  {
    var cs := Changes(fs);
    forall a, b | a in cs && b in cs && a.def.name == b.def.name ensures a == b || Follows(a, b) || Follows(b, a) {
      var i, k :| 0 <= i < |fs| && 0 <= k < |fs[i].history| && fs[i].history[k] == a;
      var j, l :| 0 <= j < |fs| && 0 <= l < |fs[j].history| && fs[j].history[l] == b;
      assert fs[i].name == fs[j].name;
      assert i == j;
    }
  }

  /** `d` is what its feature's last change before revision `r` says. */
  ghost predicate Current(cs: set<Change>, r: nat, d: Definition)
  {
    exists c | c in cs ::
      c.def == d && c.rev < r && forall e | e in cs && e.def.name == d.name && e.rev < r :: e.rev <= c.rev
  }

  ghost predicate ByName(l: seq<Definition>)
  {
    forall i, j | 0 <= i < j < |l| :: Less(l[i].name, l[j].name)
  }

  /** Sorted, once each: every feature introduced by revision `r`, as last changed at or before it. */
  ghost predicate IsSnapshot(cs: set<Change>, r: nat, l: seq<Definition>)
  {
    ByName(l) && forall d :: d in l <==> Current(cs, r + 1, d)
  }

  function PrevHash(es: seq<Entry>, r: nat): string
    requires r <= |es|
  {
    if r == 0 then "" else es[r - 1].hash
  }

  type Hash = (string, seq<Definition>) -> string

  ghost predicate Linked(h: Hash, es: seq<Entry>, r: nat)
    requires r < |es|
  {
    es[r].prev == PrevHash(es, r) && es[r].hash == h(es[r].prev, es[r].features)
  }

  ghost predicate IsChain(h: Hash, es: seq<Entry>)
  {
    forall r | 0 <= r < |es| :: Linked(h, es, r)
  }

  ghost predicate IsLog(cs: set<Change>, h: Hash, es: seq<Entry>)
  {
    IsChain(h, es) && forall r | 0 <= r < |es| :: IsSnapshot(cs, r, es[r].features)
  }

  /** The revisions in use are 0, 1, ... without a gap. */
  ghost predicate Contiguous(cs: set<Change>)
  {
    forall r: nat :: r in Used(cs) <==> r < |Used(cs)|
  }

  // ---------------------------------------------------------------- the rebuilt state

  ghost predicate IsState(cs: set<Change>, r: nat, state: map<string, Definition>)
  {
    && (forall n | n in state :: state[n].name == n && Current(cs, r, state[n]))
    && forall d | Current(cs, r, d) :: d.name in state && state[d.name] == d
  }

  /** Exactly the definitions declared at revision `r`. */
  ghost predicate DeclaredAt(cs: set<Change>, r: nat, ds: seq<Definition>)
  {
    forall d :: d in ds <==> Change(r, d) in cs
  }

  function Put(state: map<string, Definition>, ds: seq<Definition>): map<string, Definition>
  {
    if ds == [] then state else Put(state, ds[..|ds| - 1])[ds[|ds| - 1].name := ds[|ds| - 1]]
  }

  lemma {:induction false} PutElsewhere(state: map<string, Definition>, ds: seq<Definition>, n: string)
    requires forall d | d in ds :: d.name != n
    ensures n in Put(state, ds) <==> n in state
    ensures n in state ==> Put(state, ds)[n] == state[n]
  {
    if ds != [] { PutElsewhere(state, ds[..|ds| - 1], n); }
  }

  lemma {:induction false} PutHere(state: map<string, Definition>, ds: seq<Definition>, d: Definition)
    requires d in ds && forall e | e in ds && e.name == d.name :: e == d
    ensures d.name in Put(state, ds) && Put(state, ds)[d.name] == d
  {
    var n := |ds| - 1;
    assert ds == ds[..n] + [ds[n]];
    if ds[n] != d { PutHere(state, ds[..n], d); }
  }

  lemma OnePerName(cs: set<Change>, r: nat, ds: seq<Definition>, d: Definition, e: Definition)
    requires Consistent(cs) && DeclaredAt(cs, r, ds) && d in ds && e in ds && d.name == e.name
    ensures d == e
  {
    assert Change(r, d) in cs && Change(r, e) in cs;
  }

  lemma StaysCurrent(cs: set<Change>, r: nat, d: Definition)
    requires forall e | e in cs && e.rev == r :: e.def.name != d.name
    ensures Current(cs, r, d) <==> Current(cs, r + 1, d)
  {
  }

  lemma BecomesCurrent(cs: set<Change>, r: nat, d: Definition)
    requires Consistent(cs) && Change(r, d) in cs
    ensures Current(cs, r + 1, d)
    ensures forall e | Current(cs, r + 1, e) && e.name == d.name :: e == d
  {
    var c := Change(r, d);
    forall e | Current(cs, r + 1, e) && e.name == d.name ensures e == d {
      var w :| w in cs && w.def == e && w.rev < r + 1
               && forall x | x in cs && x.def.name == e.name && x.rev < r + 1 :: x.rev <= w.rev;
      assert c.rev <= w.rev;
    }
  }

  /** Applying the changes of revision `r`, in any order, gives the state after it. */
  lemma StateStep(cs: set<Change>, r: nat, state: map<string, Definition>, ds: seq<Definition>)
    requires Consistent(cs) && IsState(cs, r, state) && DeclaredAt(cs, r, ds)
    ensures IsState(cs, r + 1, Put(state, ds))
  {
    hide Consistent, Current;
    var next := Put(state, ds);
    forall n | n in next ensures next[n].name == n && Current(cs, r + 1, next[n]) {
      StateStepAt(cs, r, state, ds, n);
    }
    forall d | Current(cs, r + 1, d) ensures d.name in next && next[d.name] == d {
      StateStepAt(cs, r, state, ds, d.name);
    }
  }

  lemma StateStepAt(cs: set<Change>, r: nat, state: map<string, Definition>, ds: seq<Definition>, n: string)
    requires Consistent(cs) && IsState(cs, r, state) && DeclaredAt(cs, r, ds)
    ensures n in Put(state, ds) ==> Put(state, ds)[n].name == n && Current(cs, r + 1, Put(state, ds)[n])
    ensures forall d | Current(cs, r + 1, d) && d.name == n :: n in Put(state, ds) && Put(state, ds)[n] == d
  {
    hide Consistent, Current, Put;
    if d :| d in ds && d.name == n {
      forall e | e in ds && e.name == n ensures e == d { OnePerName(cs, r, ds, d, e); }
      PutHere(state, ds, d);
      BecomesCurrent(cs, r, d);
    } else {
      PutElsewhere(state, ds, n);
      forall e | e in cs && e.rev == r ensures e.def.name != n { assert e == Change(r, e.def); }
      forall d: Definition | d.name == n ensures Current(cs, r, d) <==> Current(cs, r + 1, d) {
        StaysCurrent(cs, r, d);
      }
    }
  }

  function Listing(state: map<string, Definition>): seq<Definition>
  {
    var names := Sorted(state.Keys);
    seq(|names|, k requires 0 <= k < |names| => Get(state, names, k))
  }

  function Get(state: map<string, Definition>, names: seq<string>, k: nat): Definition
    requires k < |names| && Elements(names) == state.Keys
  {
    assert names[k] in Elements(names);
    state[names[k]]
  }

  lemma ListingIsSnapshot(cs: set<Change>, r: nat, state: map<string, Definition>)
    requires IsState(cs, r + 1, state)
    ensures IsSnapshot(cs, r, Listing(state))
  {
    hide Current, Less, Sorted;
    var names, l := Sorted(state.Keys), Listing(state);
    forall k | 0 <= k < |l| ensures l[k].name == names[k] && Current(cs, r + 1, l[k]) {
      assert names[k] in Elements(names);
      assert l[k] == Get(state, names, k);
    }
    forall d | Current(cs, r + 1, d) ensures d in l {
      assert d.name in Elements(names);
      var k :| 0 <= k < |names| && names[k] == d.name;
      assert l[k] == Get(state, names, k);
    }
  }

  // ---------------------------------------------------------------- the generator

  ghost predicate Grouped(revisions: map<nat, seq<Definition>>, cs: set<Change>)
  {
    revisions.Keys == Used(cs) && forall rev | rev in revisions :: DeclaredAt(cs, rev, revisions[rev])
  }

  lemma GroupOneMore(revisions: map<nat, seq<Definition>>, cs: set<Change>, c: Change)
    requires Grouped(revisions, cs)
    ensures Grouped(revisions[c.rev := (if c.rev in revisions then revisions[c.rev] else []) + [c.def]], cs + {c})
  {
    var old_ := if c.rev in revisions then revisions[c.rev] else [];
    var next := revisions[c.rev := old_ + [c.def]];
    assert Used(cs + {c}) == Used(cs) + {c.rev};
    forall rev | rev in next ensures DeclaredAt(cs + {c}, rev, next[rev]) {
      forall d ensures d in next[rev] <==> Change(rev, d) in cs + {c} {
        if rev == c.rev && rev !in revisions { assert Change(rev, d) in cs ==> rev in Used(cs); }
      }
    }
  }

  method GroupByRevision(fs: seq<Feature>) returns (revisions: map<nat, seq<Definition>>)
    ensures Grouped(revisions, Changes(fs))
  {
    hide Grouped;
    revisions := map[];
    ghost var cs: set<Change> := {};
    NothingGrouped();
    for i := 0 to |fs|
      invariant Grouped(revisions, cs) && cs == Changes(fs[..i])
    {
      var f := fs[i];
      for k := 0 to |f.history|
        invariant Grouped(revisions, cs) && cs == Changes(fs[..i]) + Elements(f.history[..k])
      {
        var c := f.history[k];
        GroupOneMore(revisions, cs, c);
        assert f.history[..k + 1] == f.history[..k] + [c];
        revisions := revisions[c.rev := (if c.rev in revisions then revisions[c.rev] else []) + [c.def]];
        cs := cs + {c};
      }
      assert f.history[..|f.history|] == f.history;
      ChangesOneMore(fs, i);
    }
    assert fs[..|fs|] == fs;
  }

  lemma NothingGrouped()
    ensures Grouped(map[], {})
  {
  }

  lemma ChangesOneMore(fs: seq<Feature>, i: nat)
    requires i < |fs|
    ensures Changes(fs[..i + 1]) == Changes(fs[..i]) + Elements(fs[i].history)
  {
    var l, r := Changes(fs[..i + 1]), Changes(fs[..i]) + Elements(fs[i].history);
    forall c | c in r ensures c in l {
      if c in Changes(fs[..i]) {
        var j, k :| 0 <= j < i && 0 <= k < |fs[..i][j].history| && fs[..i][j].history[k] == c;
        assert fs[..i + 1][j].history[k] == c;
      } else {
        var k :| 0 <= k < |fs[i].history| && fs[i].history[k] == c;
        assert fs[..i + 1][i].history[k] == c;
      }
    }
    forall c | c in l ensures c in r {
      var j, k :| 0 <= j < i + 1 && 0 <= k < |fs[..i + 1][j].history| && fs[..i + 1][j].history[k] == c;
      if j < i { assert fs[..i][j].history[k] == c; }
    }
  }

  /** The revisions below `n`. */
  function UpTo(n: nat): set<nat> { if n == 0 then {} else UpTo(n - 1) + {n - 1} }

  lemma {:induction false} UpToHolds(n: nat)
    ensures |UpTo(n)| == n && forall i :: i in UpTo(n) <==> 0 <= i < n
  {
    if n > 0 { UpToHolds(n - 1); }
  }

  lemma FullIsInterval(u: set<nat>)
    requires forall i | 0 <= i < |u| :: i in u
    ensures forall i | i in u :: i < |u|
  {
    UpToHolds(|u|);
    forall x | x in u ensures x < |u| {
      if x >= |u| {
        assert UpTo(|u|) + {x} <= u;
        SubsetSize(UpTo(|u|) + {x}, u);
      }
    }
  }

  lemma {:induction false} SubsetSize<T>(a: set<T>, b: set<T>)
    requires a <= b
    ensures |a| <= |b|
  {
    if a != {} {
      var x :| x in a;
      SubsetSize(a - {x}, b - {x});
    }
  }

  lemma LogOneMore(cs: set<Change>, h: Hash, es: seq<Entry>, e: Entry)
    requires IsLog(cs, h, es) && IsSnapshot(cs, |es|, e.features)
    requires e.prev == PrevHash(es, |es|) && e.hash == h(e.prev, e.features)
    ensures IsLog(cs, h, es + [e])
  {
    hide IsSnapshot;
    var next := es + [e];
    forall r | 0 <= r < |next| ensures Linked(h, next, r) {
      if r < |es| { assert Linked(h, es, r); }
    }
  }

  /** Rebuilds the snapshots, or reports a missing revision. */
  method BuildLog(fs: seq<Feature>, h: Hash) returns (r: Option<seq<Entry>>)
    requires ValidFeatures(fs)
    ensures r.Some? <==> Contiguous(Changes(fs))
    ensures r.Some? ==> |r.value| == |Used(Changes(fs))| && IsLog(Changes(fs), h, r.value)
  {
    hide IsState, IsSnapshot, Consistent, Changes, DeclaredAt, ValidFeatures, IsLog, Used, Listing;
    ghost var cs := Changes(fs);
    ValidIsConsistent(fs);
    var revisions := GroupByRevision(fs);
    var state: map<string, Definition> := map[];
    InitialState(cs, h);
    var entries: seq<Entry> := [];
    var prev := "";
    for rev := 0 to |revisions|
      invariant forall i | 0 <= i < rev :: i in revisions
      invariant |entries| == rev && prev == PrevHash(entries, rev)
      invariant IsState(cs, rev, state) && IsLog(cs, h, entries)
    {
      if rev !in revisions {
        assert rev !in Used(cs) && |Used(cs)| == |revisions|;
        return None;
      }
      ghost var before := state;
      var changes := revisions[rev];
      for k := 0 to |changes|
        invariant state == Put(before, changes[..k])
      {
        assert changes[..k + 1][..k] == changes[..k];
        state := state[changes[k].name := changes[k]];
      }
      assert changes[..|changes|] == changes;
      StateStep(cs, rev, before, changes);
      var snapshot := Listing(state);
      ListingIsSnapshot(cs, rev, state);
      var hash := h(prev, snapshot);
      LogOneMore(cs, h, entries, Entry(hash, prev, snapshot));
      entries := entries + [Entry(hash, prev, snapshot)];
      prev := hash;
    }
    assert |Used(cs)| == |revisions.Keys| == |revisions|;
    FullIsInterval(Used(cs));
    return Some(entries);
  }

  lemma InitialState(cs: set<Change>, h: Hash)
    ensures IsState(cs, 0, map[]) && IsLog(cs, h, [])
  {
  }

  // ---------------------------------------------------------------- what the log means

  /** The log depends on the declared changes alone, not on the order of the declarations. */
  lemma {:induction false} LogIsUnique(cs: set<Change>, h: Hash, a: seq<Entry>, b: seq<Entry>)
    requires IsLog(cs, h, a) && IsLog(cs, h, b) && |a| == |b|
    ensures a == b
  {
    hide IsSnapshot;
    if a != [] {
      var n := |a| - 1;
      LogPrefix(cs, h, a, n);
      LogPrefix(cs, h, b, n);
      LogIsUnique(cs, h, a[..n], b[..n]);
      assert Linked(h, a, n) && Linked(h, b, n);
      assert n > 0 ==> a[n - 1] == a[..n][n - 1] == b[..n][n - 1] == b[n - 1];
      SnapshotIsUnique(cs, n, a[n].features, b[n].features);
      assert a == a[..n] + [a[n]] && b == b[..n] + [b[n]];
    }
  }

  lemma LogPrefix(cs: set<Change>, h: Hash, es: seq<Entry>, n: nat)
    requires IsLog(cs, h, es) && n <= |es|
    ensures IsLog(cs, h, es[..n])
  {
    hide IsSnapshot;
    ChainPrefix(h, es, n);
  }

  lemma ChainPrefix(h: Hash, es: seq<Entry>, n: nat)
    requires IsChain(h, es) && n <= |es|
    ensures IsChain(h, es[..n])
  {
    forall r | 0 <= r < n ensures Linked(h, es[..n], r) { assert Linked(h, es, r); }
  }

  function Names(l: seq<Definition>): seq<string> { seq(|l|, i requires 0 <= i < |l| => l[i].name) }

  lemma NamesHold(l: seq<Definition>, d: Definition)
    requires ByName(l) && d in l
    ensures forall i | 0 <= i < |l| && l[i].name == d.name :: l[i] == d
  {
    var j :| 0 <= j < |l| && l[j] == d;
    LessIrreflexive(d.name);
  }

  lemma SameListing(a: seq<Definition>, b: seq<Definition>)
    requires ByName(a) && ByName(b) && forall d :: d in a <==> d in b
    ensures a == b
  {
    var x, y := Names(a), Names(b);
    forall n ensures n in x <==> n in y {
      if n in x {
        var i :| 0 <= i < |a| && x[i] == n;
        assert a[i] in b;
        var j :| 0 <= j < |b| && b[j] == a[i];
        assert y[j] == n;
      }
      if n in y {
        var j :| 0 <= j < |b| && y[j] == n;
        assert b[j] in a;
        var i :| 0 <= i < |a| && a[i] == b[j];
        assert x[i] == n;
      }
    }
    assert Elements(x) == Elements(y);
    AscendingIsUnique(x, y);
    forall i | 0 <= i < |a| ensures a[i] == b[i] {
      assert x[i] == y[i];
      assert b[i] in a;
      NamesHold(a, b[i]);
    }
  }

  lemma SnapshotIsUnique(cs: set<Change>, r: nat, a: seq<Definition>, b: seq<Definition>)
    requires IsSnapshot(cs, r, a) && IsSnapshot(cs, r, b)
    ensures a == b
  {
    hide Current;
    SameListing(a, b);
  }

  /** A feature stays listed once introduced, and its stage never moves back. */
  lemma StagesOnlyAdvance(cs: set<Change>, h: Hash, es: seq<Entry>, r: nat, t: nat, d: Definition)
    requires Consistent(cs) && IsLog(cs, h, es) && r <= t < |es| && d in es[r].features
    ensures exists e | e in es[t].features :: e.name == d.name && Order(d.stage) <= Order(e.stage)
  {
    hide IsChain;
    assert IsSnapshot(cs, r, es[r].features) && IsSnapshot(cs, t, es[t].features);
    assert Current(cs, r + 1, d);
    var c :| c in cs && c.def == d && c.rev < r + 1;
    var last := LastChange(cs, t + 1, c);
    assert Current(cs, t + 1, last.def);
    assert c == last || Follows(c, last) || Follows(last, c);
    assert last.def in es[t].features;
  }

  /** The last change of a feature before revision `r`. */
  lemma LastChange(cs: set<Change>, r: nat, c: Change) returns (last: Change)
    requires c in cs && c.rev < r
    ensures last in cs && last.def.name == c.def.name && c.rev <= last.rev < r
    ensures forall e | e in cs && e.def.name == c.def.name && e.rev < r :: e.rev <= last.rev
    decreases r - c.rev
  {
    if e :| e in cs && e.def.name == c.def.name && c.rev < e.rev < r {
      last := LastChange(cs, r, e);
    } else {
      last := c;
    }
  }

  // ---------------------------------------------------------------- the hash chain

  ghost predicate Injective(h: Hash)
  {
    && (forall p, l, q, m :: h(p, l) == h(q, m) ==> p == q && l == m)
    && forall p, l :: h(p, l) != ""
  }

  /** A hash identifies its entry's position and every entry up to it, in any two logs. */
  lemma {:induction false} HashFixesPrefix(h: Hash, a: seq<Entry>, b: seq<Entry>, i: nat, j: nat)
    requires Injective(h) && IsChain(h, a) && IsChain(h, b)
    requires i < |a| && j < |b| && a[i].hash == b[j].hash
    ensures i == j && a[..i + 1] == b[..j + 1]
  {
    assert Linked(h, a, i) && Linked(h, b, j);
    assert a[i].prev == b[j].prev && a[i].features == b[j].features && a[i] == b[j];
    if i > 0 && j > 0 {
      HashFixesPrefix(h, a, b, i - 1, j - 1);
      assert a[..i + 1] == a[..i] + [a[i]] && b[..j + 1] == b[..j] + [b[j]];
    } else if i > 0 {
      HashIsSet(h, a, i - 1);
    } else if j > 0 {
      HashIsSet(h, b, j - 1);
    }
  }

  lemma HashIsSet(h: Hash, es: seq<Entry>, r: nat)
    requires Injective(h) && IsChain(h, es) && r < |es|
    ensures es[r].hash != ""
  {
    assert Linked(h, es, r);
  }

  lemma HashesDiffer(h: Hash, es: seq<Entry>, i: nat, j: nat)
    requires Injective(h) && IsChain(h, es) && i < j < |es|
    ensures es[i].hash != es[j].hash
  {
    if es[i].hash == es[j].hash { HashFixesPrefix(h, es, es, i, j); }
  }

  // ---------------------------------------------------------------- the lint

  type Snapshot = map<string, Definition>

  /** What the lint reads of an entry: each feature's stage and default by name. */
  function Published(l: seq<Definition>): Snapshot
  {
    if l == [] then map[] else Published(l[..|l| - 1])[l[|l| - 1].name := l[|l| - 1]]
  }

  function PublishedLog(es: seq<Entry>): seq<Snapshot>
  {
    seq(|es|, r requires 0 <= r < |es| => Published(es[r].features))
  }

  /** Accepts when the base is unchanged and at most one revision follows it. */
  method CheckAppendOnly(base: seq<Snapshot>, current: seq<Snapshot>) returns (ok: bool)
    ensures ok <==> base <= current && |current| <= |base| + 1
  {
    if |current| < |base| { return false; }
    for rev := 0 to |base|
      invariant base[..rev] == current[..rev]
    {
      if current[rev] != base[rev] {
        return false;
      }
    }
    assert base[..|base|] == base;
    if |current| > |base| + 1 { return false; }
    return true;
  }

  lemma {:induction false} PublishedHolds(l: seq<Definition>, d: Definition)
    requires ByName(l)
    ensures d in l <==> d.name in Published(l) && Published(l)[d.name] == d
  {
    if l != [] {
      var n := |l| - 1;
      PublishedHolds(l[..n], d);
      assert l == l[..n] + [l[n]];
      LessIrreflexive(d.name);
      forall i | 0 <= i < n ensures l[i].name != l[n].name { LessIrreflexive(l[i].name); }
    }
  }

  lemma PublishedIsInjective(a: seq<Definition>, b: seq<Definition>)
    requires ByName(a) && ByName(b) && Published(a) == Published(b)
    ensures a == b
  {
    forall d ensures d in a <==> d in b {
      PublishedHolds(a, d);
      PublishedHolds(b, d);
    }
    SameListing(a, b);
  }

  /** The same changes below revision `n`. */
  ghost predicate SameBelow(cs: set<Change>, ds: set<Change>, n: nat)
  {
    forall c: Change | c.rev < n :: c in cs <==> c in ds
  }

  lemma SameBelowSameCurrent(cs: set<Change>, ds: set<Change>, n: nat, r: nat, d: Definition)
    requires SameBelow(cs, ds, n) && r <= n
    ensures Current(cs, r, d) <==> Current(ds, r, d)
  {
    if Current(cs, r, d) {
      var c :| c in cs && c.def == d && c.rev < r
               && forall e | e in cs && e.def.name == d.name && e.rev < r :: e.rev <= c.rev;
      assert c in ds;
    }
    if Current(ds, r, d) {
      var c :| c in ds && c.def == d && c.rev < r
               && forall e | e in ds && e.def.name == d.name && e.rev < r :: e.rev <= c.rev;
      assert c in cs;
    }
  }

  /** As a change always moves the stage, a definition is declared exactly where it becomes current. */
  lemma DeclaredWhereItAppears(cs: set<Change>, r: nat, d: Definition)
    requires Consistent(cs)
    ensures Change(r, d) in cs <==> Current(cs, r + 1, d) && !Current(cs, r, d)
  {
    if Change(r, d) in cs {
      BecomesCurrent(cs, r, d);
      if Current(cs, r, d) {
        var c :| c in cs && c.def == d && c.rev < r;
      }
    }
    if Current(cs, r + 1, d) && !Current(cs, r, d) {
      var c :| c in cs && c.def == d && c.rev < r + 1
               && forall e | e in cs && e.def.name == d.name && e.rev < r + 1 :: e.rev <= c.rev;
      assert c.rev == r;
      assert c == Change(r, d);
    }
  }

  lemma SameCurrentSameBelow(cs: set<Change>, ds: set<Change>, n: nat)
    requires Consistent(cs) && Consistent(ds)
    requires forall r, d | 0 <= r <= n :: Current(cs, r, d) <==> Current(ds, r, d)
    ensures SameBelow(cs, ds, n)
  {
    hide Current, Consistent;
    forall c: Change | c.rev < n ensures c in cs <==> c in ds {
      DeclaredWhereItAppears(cs, c.rev, c.def);
      DeclaredWhereItAppears(ds, c.rev, c.def);
      assert c == Change(c.rev, c.def);
    }
  }

  /** The lint accepts a new history exactly when it leaves every published revision's changes alone
      and adds at most one revision. */
  lemma LintExactly(cs: set<Change>, ds: set<Change>, h: Hash, base: seq<Entry>, current: seq<Entry>)
    requires Consistent(cs) && Consistent(ds) && Contiguous(cs) && Contiguous(ds)
    requires IsLog(cs, h, base) && |base| == |Used(cs)|
    requires IsLog(ds, h, current) && |current| == |Used(ds)|
    ensures PublishedLog(base) <= PublishedLog(current) && |current| <= |base| + 1
            <==> SameBelow(cs, ds, |base|) && |current| <= |base| + 1
    ensures SameBelow(cs, ds, |base|) ==> base <= current
  {
    hide IsSnapshot, Consistent, Contiguous, Used, IsChain;
    if SameBelow(cs, ds, |base|) {
      SameBelowLonger(cs, ds, |base|);
      UnchangedEntries(cs, ds, h, base, current);
      assert PublishedLog(base) == PublishedLog(current)[..|base|];
    } else if PublishedLog(base) <= PublishedLog(current) {
      SamePublished(cs, ds, h, base, current);
    }
  }

  lemma SameBelowLonger(cs: set<Change>, ds: set<Change>, n: nat)
    requires Contiguous(cs) && Contiguous(ds) && n == |Used(cs)| && SameBelow(cs, ds, n)
    ensures n <= |Used(ds)|
  {
    forall i | 0 <= i < n ensures i in Used(ds) {
      assert i in Used(cs);
      var c :| c in cs && c.rev == i;
      assert c in ds;
    }
    UpToHolds(n);
    SubsetSize(UpTo(n), Used(ds));
  }

  /** Changes at later revisions leave every earlier entry as it is, with its hash. */
  lemma {:induction false} UnchangedEntries(cs: set<Change>, ds: set<Change>, h: Hash, base: seq<Entry>,
                                            current: seq<Entry>)
    requires IsLog(cs, h, base) && IsLog(ds, h, current) && |base| <= |current| && SameBelow(cs, ds, |base|)
    ensures base <= current
  {
    hide Current;
    LogPrefix(ds, h, current, |base|);
    var prefix := current[..|base|];
    forall r | 0 <= r < |base| ensures IsSnapshot(cs, r, prefix[r].features) {
      var next := r + 1;
      forall d ensures Current(cs, next, d) <==> Current(ds, next, d) {
        SameBelowSameCurrent(cs, ds, |base|, next, d);
      }
      assert IsSnapshot(ds, r, prefix[r].features);
    }
    LogIsUnique(cs, h, base, prefix);
  }

  lemma SamePublished(cs: set<Change>, ds: set<Change>, h: Hash, base: seq<Entry>, current: seq<Entry>)
    requires Consistent(cs) && Consistent(ds)
    requires IsLog(cs, h, base) && IsLog(ds, h, current) && PublishedLog(base) <= PublishedLog(current)
    ensures SameBelow(cs, ds, |base|)
  {
    hide Current, Consistent, Published;
    forall r, d | 0 <= r <= |base| ensures Current(cs, r, d) <==> Current(ds, r, d) {
      if r == 0 {
        NothingCurrent(cs, d);
        NothingCurrent(ds, d);
      } else {
        assert PublishedLog(base)[r - 1] == PublishedLog(current)[r - 1];
        assert IsSnapshot(cs, r - 1, base[r - 1].features) && IsSnapshot(ds, r - 1, current[r - 1].features);
        PublishedIsInjective(base[r - 1].features, current[r - 1].features);
        assert r - 1 + 1 == r;
        assert d in base[r - 1].features <==> Current(cs, r - 1 + 1, d);
        assert d in current[r - 1].features <==> Current(ds, r - 1 + 1, d);
      }
    }
    SameCurrentSameBelow(cs, ds, |base|);
  }

  lemma NothingCurrent(cs: set<Change>, d: Definition)
    ensures !Current(cs, 0, d)
  {
  }
}
