/** Feature gates: the cluster's overrides and defaults, the list that carries their meaning to
    groups and instances, and its text in a pod annotation. */
module FeatureGates {
  import opened Wrappers
  import opened Strings
  import FeatureLog

  type Definition = FeatureLog.Definition
  datatype FeatureGate = FeatureGate(name: string, enabled: Option<bool>)

  /** A complete configuration: absent features are disabled. */
  type Gates = map<string, bool>

  predicate IsOn(g: Gates, feature: string) { feature in g && g[feature] }

  datatype ClusterGates = ClusterGates(overrides: Gates, defaults: Gates) {
    predicate Enabled(feature: string)
    {
      if feature in overrides then overrides[feature] else IsOn(defaults, feature)
    }
  }

  // ---------------------------------------------------------------- what a cluster asks for

  /** What the last entry for `feature` says; an omitted value means true. */
  function Override(fs: seq<FeatureGate>, feature: string): Option<bool>
  {
    if fs == [] then None
    else
      var last := fs[|fs| - 1];
      if last.name == feature then Some(last.enabled.None? || last.enabled.value)
      else Override(fs[..|fs| - 1], feature)
  }

  function Default(definitions: seq<Definition>, feature: string): bool
  {
    definitions != [] &&
    if definitions[|definitions| - 1].name == feature then definitions[|definitions| - 1].enabled
    else Default(definitions[..|definitions| - 1], feature)
  }

  predicate Asked(fs: seq<FeatureGate>, definitions: seq<Definition>, feature: string)
  {
    if Override(fs, feature).Some? then Override(fs, feature).value else Default(definitions, feature)
  }

  method NewFromLogs(definitions: seq<Definition>) returns (defaults: Gates)
    ensures forall n :: IsOn(defaults, n) <==> Default(definitions, n)
  {
    defaults := map[];
    for i := 0 to |definitions|
      invariant forall n :: IsOn(defaults, n) <==> Default(definitions[..i], n)
    {
      assert definitions[..i + 1][..i] == definitions[..i];
      defaults := defaults[definitions[i].name := definitions[i].enabled];
    }
    assert definitions[..|definitions|] == definitions;
  }

  method NewFromFeatures(fs: seq<string>) returns (enabled: Gates)
    ensures forall n :: IsOn(enabled, n) <==> n in fs
  {
    enabled := map[];
    for i := 0 to |fs|
      invariant forall n :: IsOn(enabled, n) <==> n in fs[..i]
    {
      assert fs[..i + 1] == fs[..i] + [fs[i]];
      enabled := enabled[fs[i] := true];
    }
    assert fs[..|fs|] == fs;
  }

  method NewFromClusterWithDefaults(fs: seq<FeatureGate>, defaults: Gates) returns (g: ClusterGates)
    ensures g.defaults == defaults
    ensures forall n :: g.Enabled(n) <==>
                        if Override(fs, n).Some? then Override(fs, n).value else IsOn(defaults, n)
  {
    var overrides: Gates := map[];
    for i := 0 to |fs|
      invariant forall n :: n in overrides <==> Override(fs[..i], n).Some?
      invariant forall n | n in overrides :: Override(fs[..i], n) == Some(overrides[n])
    {
      assert fs[..i + 1][..i] == fs[..i];
      overrides := overrides[fs[i].name := fs[i].enabled.None? || fs[i].enabled.value];
    }
    assert fs[..|fs|] == fs;
    g := ClusterGates(overrides, defaults);
  }

  // ---------------------------------------------------------------- the list that is propagated

  ghost predicate Once(l: seq<string>)
  {
    forall i, j | 0 <= i < j < |l| :: l[i] != l[j]
  }

  /** Members of `l` come in the order of their first occurrences in `names`. */
  ghost predicate InOrder(l: seq<string>, names: seq<string>)
  {
    forall i, j, b | 0 <= i < j < |l| && 0 <= b < |names| && names[b] == l[j] :: l[i] in names[..b]
  }

  function Mentioned(fs: seq<FeatureGate>, definitions: seq<Definition>): seq<string>
  {
    seq(|fs|, i requires 0 <= i < |fs| => fs[i].name) +
    seq(|definitions|, i requires 0 <= i < |definitions| => definitions[i].name)
  }

  lemma {:induction false} OverriddenIsMentioned(fs: seq<FeatureGate>, n: string)
    requires Override(fs, n).Some?
    ensures exists i | 0 <= i < |fs| :: fs[i].name == n
  {
    if fs[|fs| - 1].name != n {
      OverriddenIsMentioned(fs[..|fs| - 1], n);
      var i :| 0 <= i < |fs| - 1 && fs[..|fs| - 1][i].name == n;
      assert fs[i].name == n;
    }
  }

  lemma {:induction false} DefaultIsMentioned(definitions: seq<Definition>, n: string)
    requires Default(definitions, n)
    ensures exists i | 0 <= i < |definitions| :: definitions[i].name == n
  {
    var k := |definitions| - 1;
    if definitions[k].name != n {
      DefaultIsMentioned(definitions[..k], n);
      var i :| 0 <= i < k && definitions[..k][i].name == n;
      assert definitions[i].name == n;
    }
  }

  lemma AskedIsMentioned(fs: seq<FeatureGate>, definitions: seq<Definition>, n: string)
    requires Asked(fs, definitions, n)
    ensures n in Mentioned(fs, definitions)
  {
    var names := Mentioned(fs, definitions);
    if Override(fs, n).Some? {
      OverriddenIsMentioned(fs, n);
      var i :| 0 <= i < |fs| && fs[i].name == n;
      assert names[i] == n;
    } else {
      DefaultIsMentioned(definitions, n);
      var i :| 0 <= i < |definitions| && definitions[i].name == n;
      assert names[|fs| + i] == n;
    }
  }

  /** Exactly the enabled features, once each, explicit entries in spec order before the others in
      log order. */
  ghost predicate Propagates(l: seq<string>, names: seq<string>, g: ClusterGates)
  {
    Once(l) && InOrder(l, names) && forall n :: n in l <==> n in names && g.Enabled(n)
  }

  lemma PropagatesOneMore(l: seq<string>, names: seq<string>, g: ClusterGates, name: string)
    requires Propagates(l, names, g)
    ensures Propagates(if name !in l && g.Enabled(name) then l + [name] else l, names + [name], g)
  {
    var more := names + [name];
    if name !in l && g.Enabled(name) {
      var next := l + [name];
      forall i, j, b | 0 <= i < j < |next| && 0 <= b < |more| && more[b] == next[j] ensures next[i] in more[..b] {
        if b < |names| {
          assert more[..b] == names[..b];
        } else {
          assert more[..b] == names;
          assert l[i] in l;
        }
      }
    } else {
      forall i, j, b | 0 <= i < j < |l| && 0 <= b < |more| && more[b] == l[j] ensures l[i] in more[..b] {
        assert l[i] in l;
        if b < |names| { assert more[..b] == names[..b]; } else { assert more[..b] == names; }
      }
    }
  }

  method AppendEnabled(name: string, enabled: seq<string>, g: ClusterGates, ghost names: seq<string>)
    returns (r: seq<string>)
    requires Propagates(enabled, names, g)
    ensures Propagates(r, names + [name], g)
  {
    PropagatesOneMore(enabled, names, g, name);
    r := enabled;
    if name !in enabled && g.Enabled(name) { r := r + [name]; }
  }

  /** Features that the cluster mentions come before those it does not. */
  lemma ExplicitComeFirst(fs: seq<FeatureGate>, definitions: seq<Definition>, l: seq<string>)
    requires InOrder(l, Mentioned(fs, definitions))
    ensures forall i, j | 0 <= i < j < |l| && (exists f :: f in fs && f.name == l[j]) ::
              exists f :: f in fs && f.name == l[i]
  {
    var names := Mentioned(fs, definitions);
    forall i, j | 0 <= i < j < |l| && (exists f :: f in fs && f.name == l[j])
      ensures exists f :: f in fs && f.name == l[i]
    {
      var f :| f in fs && f.name == l[j];
      var b :| 0 <= b < |fs| && fs[b] == f;
      assert names[b] == l[j];
      assert l[i] in names[..b];
      var a :| 0 <= a < b && names[a] == l[i];
      assert fs[a] in fs && fs[a].name == l[i];
    }
  }

  method ClusterFeatures(fs: seq<FeatureGate>, latest: seq<Definition>) returns (enabled: seq<string>)
    ensures forall n :: n in enabled <==> Asked(fs, latest, n)
    ensures Once(enabled) && InOrder(enabled, Mentioned(fs, latest))
    ensures forall i, j | 0 <= i < j < |enabled| && (exists f :: f in fs && f.name == enabled[j]) ::
              exists f :: f in fs && f.name == enabled[i]
  {
    hide Propagates;
    var defaults := NewFromLogs(latest);
    var configured := NewFromClusterWithDefaults(fs, defaults);
    ghost var names := Mentioned(fs, latest);
    enabled := [];
    NothingPropagated(configured);
    for i := 0 to |fs|
      invariant Propagates(enabled, names[..i], configured)
    {
      assert names[..i + 1] == names[..i] + [fs[i].name];
      enabled := AppendEnabled(fs[i].name, enabled, configured, names[..i]);
    }
    for i := 0 to |latest|
      invariant Propagates(enabled, names[..|fs| + i], configured)
    {
      assert names[..|fs| + i + 1] == names[..|fs| + i] + [latest[i].name];
      enabled := AppendEnabled(latest[i].name, enabled, configured, names[..|fs| + i]);
    }
    assert names[..|names|] == names;
    PropagatesAsked(enabled, fs, latest, configured);
    ExplicitComeFirst(fs, latest, enabled);
  }

  lemma NothingPropagated(g: ClusterGates)
    ensures Propagates([], [], g)
  {
  }

  lemma PropagatesAsked(l: seq<string>, fs: seq<FeatureGate>, latest: seq<Definition>, g: ClusterGates)
    requires Propagates(l, Mentioned(fs, latest), g) && forall n :: g.Enabled(n) <==> Asked(fs, latest, n)
    ensures Once(l) && InOrder(l, Mentioned(fs, latest)) && forall n :: n in l <==> Asked(fs, latest, n)
  {
    forall n ensures n in l <==> Asked(fs, latest, n) {
      if Asked(fs, latest, n) { AskedIsMentioned(fs, latest, n); }
    }
  }

  // ---------------------------------------------------------------- the annotation

  function EncodeFeatures(features: seq<string>): string { Join(features) }

  function DecodeFeatures(text: string): seq<string> { if text == "" then [] else Split(text) }

  /** A list survives the annotation exactly when no name holds a comma and it is not one empty name. */
  lemma RoundTripExactly(features: seq<string>)
    ensures DecodeFeatures(EncodeFeatures(features)) == features <==> CommaFree(features) && features != [""]
  {
    if CommaFree(features) {
      if features != [] { SplitUndoesJoin(features); }
    } else {
      SplitIsCommaFree(EncodeFeatures(features));
    }
  }

  /** The gates of a group, built from the list read back from the annotation, answer exactly as the
      cluster's gates do, for every feature. */
  method Propagate(fs: seq<FeatureGate>, latest: seq<Definition>) returns (cluster: ClusterGates, group: Gates)
    requires forall i | 0 <= i < |fs| :: fs[i].name != "" && ',' !in fs[i].name
    requires forall i | 0 <= i < |latest| :: latest[i].name != "" && ',' !in latest[i].name
    ensures forall n :: IsOn(group, n) <==> cluster.Enabled(n)
    ensures forall n :: cluster.Enabled(n) <==> Asked(fs, latest, n)
  {
    var defaults := NewFromLogs(latest);
    cluster := NewFromClusterWithDefaults(fs, defaults);
    var features := ClusterFeatures(fs, latest);
    forall i | 0 <= i < |features| ensures features[i] != "" && ',' !in features[i] {
      assert features[i] in features;
      AskedIsMentioned(fs, latest, features[i]);
    }
    RoundTripExactly(features);
    group := NewFromFeatures(DecodeFeatures(EncodeFeatures(features)));
  }

  // ---------------------------------------------------------------- who decides

  /** A feature that the cluster mentions is on unless its last entry says false. */
  lemma {:induction false} LastEntryDecides(fs: seq<FeatureGate>, definitions: seq<Definition>, feature: string, i: nat)
    requires i < |fs| && fs[i].name == feature && forall j | i < j < |fs| :: fs[j].name != feature
    ensures Override(fs, feature) == Some(fs[i].enabled != Some(false))
    ensures Asked(fs, definitions, feature) <==> fs[i].enabled != Some(false)
  {
    if i < |fs| - 1 {
      LastEntryDecides(fs[..|fs| - 1], definitions, feature, i);
    }
  }

  /** A feature that the cluster does not mention is what its last definition says. */
  lemma LastDefinitionDecides(fs: seq<FeatureGate>, definitions: seq<Definition>, feature: string, i: nat)
    requires forall j | 0 <= j < |fs| :: fs[j].name != feature
    requires i < |definitions| && definitions[i].name == feature
    requires forall j | i < j < |definitions| :: definitions[j].name != feature
    ensures Asked(fs, definitions, feature) <==> definitions[i].enabled
  {
    NotMentioned(fs, feature);
    LastDefinition(definitions, feature, i);
  }

  /** A feature that nobody mentions is off. */
  lemma UnknownIsOff(fs: seq<FeatureGate>, definitions: seq<Definition>, feature: string)
    requires forall j | 0 <= j < |fs| :: fs[j].name != feature
    requires forall j | 0 <= j < |definitions| :: definitions[j].name != feature
    ensures !Asked(fs, definitions, feature)
  {
    NotMentioned(fs, feature);
    Undefined(definitions, feature);
  }

  lemma {:induction false} NotMentioned(fs: seq<FeatureGate>, feature: string)
    requires forall j | 0 <= j < |fs| :: fs[j].name != feature
    ensures Override(fs, feature).None?
  {
    if fs != [] { NotMentioned(fs[..|fs| - 1], feature); }
  }

  lemma {:induction false} Undefined(definitions: seq<Definition>, feature: string)
    requires forall j | 0 <= j < |definitions| :: definitions[j].name != feature
    ensures !Default(definitions, feature)
  {
    if definitions != [] { Undefined(definitions[..|definitions| - 1], feature); }
  }

  lemma {:induction false} LastDefinition(definitions: seq<Definition>, feature: string, i: nat)
    requires i < |definitions| && definitions[i].name == feature
    requires forall j | i < j < |definitions| :: definitions[j].name != feature
    ensures Default(definitions, feature) <==> definitions[i].enabled
  {
    if i < |definitions| - 1 { LastDefinition(definitions[..|definitions| - 1], feature, i); }
  }
}
