/** When a changed TiDB template can be taken over without restarting the pod. */
module Reloadable {
  import opened Wrappers

  type Tags = map<string, string>

  const KEY_PREFIX := "pingcap.com/"
  const ANNO_PREFIX := "core.pingcap.com/"

  const IGNORED_LABELS: set<string> := {
    KEY_PREFIX + "managed-by", KEY_PREFIX + "component", KEY_PREFIX + "cluster", KEY_PREFIX + "group",
    KEY_PREFIX + "instance-revision-hash" }

  const IGNORED_ANNOTATIONS: set<string> := {
    ANNO_PREFIX + "defer-delete", "pd.core.pingcap.com/initial-cluster-num",
    ANNO_PREFIX + "tiproxy-graceful-shutdown-delete-delay-seconds", ANNO_PREFIX + "tiproxy-hpa-scale-in",
    ANNO_PREFIX + "store-limits", ANNO_PREFIX + "selected-to-delete" }

  const MAIN_CONTAINERS: set<string> := {
    "pd", "tikv", "tidb", "tiflash", "ticdc", "tso", "scheduler", "scheduling", "tiproxy", "tikv-worker",
    "dm-master", "dm-worker" }

  datatype Mode = Unset | Normal | StandBy

  datatype ConfigStrategy = StrategyUnset | HotReload | Restart

  datatype Volume = Volume(name: string, mounts: string, storage: int, storageClass: Option<string>,
                           attributesClass: Option<string>)

  datatype Container = Container(name: string, image: string, rest: string)

  datatype PodSpec = PodSpec(initContainers: seq<Container>, containers: seq<Container>, rest: string)

  datatype PodOverlay = PodOverlay(labels: Tags, annotations: Tags, spec: Option<PodSpec>)

  datatype Overlay = Overlay(pod: Option<PodOverlay>, volumeClaims: seq<string>)

  datatype SlowLog = SlowLog(image: Option<string>, rest: string)

  /** A TiDB template; `rest` stands for every field that no rule mentions. An unset map or list
      is the empty one, as the semantic comparison has it. */
  datatype Template = Template(
    labels: Tags,
    annotations: Tags,
    mode: Mode,
    keyspace: string,
    config: string,
    configStrategy: ConfigStrategy,
    slowLog: Option<SlowLog>,
    serverLabels: Tags,
    volumes: seq<Volume>,
    overlay: Option<Overlay>,
    rest: string)

  datatype Group = Group(namespace: string, name: string, uid: string, cluster: string,
                         features: seq<string>, template: Template)

  /** An instance; `template` is its labels, annotations and template spec. */
  datatype TiDB = TiDB(namespace: string, name: string, uid: string, resourceVersion: string, cluster: string,
                       deleting: bool, features: seq<string>, template: Template)

  // ---------------------------------------------------------------- conversion

  function BlankVolume(v: Volume): Volume { v.(storage := 0, storageClass := None, attributesClass := None) }

  function BlankVolumes(vs: seq<Volume>): seq<Volume> { seq(|vs|, i requires 0 <= i < |vs| => BlankVolume(vs[i])) }

  function BlankInit(c: Container): Container { c.(image := "") }

  function BlankSidecar(c: Container): Container { if c.name in MAIN_CONTAINERS then c else c.(image := "") }

  function BlankPodSpec(s: PodSpec): PodSpec
  {
    s.(initContainers := seq(|s.initContainers|,
                             i requires 0 <= i < |s.initContainers| => BlankInit(s.initContainers[i])),
       containers := seq(|s.containers|, i requires 0 <= i < |s.containers| => BlankSidecar(s.containers[i])))
  }

  function SpecOf(o: Option<Overlay>): PodSpec
  {
    if o.Some? && o.value.pod.Some? && o.value.pod.value.spec.Some? then o.value.pod.value.spec.value
    else PodSpec([], [], "")
  }

  function Converted(t: Template): Template
  {
    t.(labels := t.labels - IGNORED_LABELS,
       annotations := t.annotations - IGNORED_ANNOTATIONS,
       slowLog := if t.slowLog.Some? then Some(t.slowLog.value.(image := None)) else None,
       mode := if t.mode.Unset? then Normal else t.mode,
       serverLabels := map[],
       volumes := BlankVolumes(t.volumes),
       overlay := Some(Overlay(Some(PodOverlay(map[], map[], Some(BlankPodSpec(SpecOf(t.overlay))))), [])))
  }

  method ConvertVolumes(vs: seq<Volume>) returns (r: seq<Volume>)
    ensures r == BlankVolumes(vs)
  {
    r := vs;
    for i := 0 to |vs|
      invariant |r| == |vs|
      invariant forall k | 0 <= k < i :: r[k] == BlankVolume(vs[k])
      invariant forall k | i <= k < |vs| :: r[k] == vs[k]
    {
      r := r[i := r[i].(storage := 0, storageClass := None, attributesClass := None)];
    }
  }

  method ConvertOverlay(o: Option<Overlay>) returns (r: Overlay)
    ensures r == Overlay(Some(PodOverlay(map[], map[], Some(BlankPodSpec(SpecOf(o))))), [])
  {
    var overlay := if o.None? then Overlay(None, []) else o.value;
    var pod := if overlay.pod.None? then PodOverlay(map[], map[], None) else overlay.pod.value;
    var spec := if pod.spec.None? then PodSpec([], [], "") else pod.spec.value;
    var inits, mains := spec.initContainers, spec.containers;
    for i := 0 to |inits|
      invariant |inits| == |spec.initContainers|
      invariant forall k | 0 <= k < i :: inits[k] == BlankInit(spec.initContainers[k])
      invariant forall k | i <= k < |inits| :: inits[k] == spec.initContainers[k]
    {
      inits := inits[i := inits[i].(image := "")];
    }
    for i := 0 to |mains|
      invariant |mains| == |spec.containers|
      invariant forall k | 0 <= k < i :: mains[k] == BlankSidecar(spec.containers[k])
      invariant forall k | i <= k < |mains| :: mains[k] == spec.containers[k]
    {
      if mains[i].name !in MAIN_CONTAINERS {
        mains := mains[i := mains[i].(image := "")];
      }
    }
    r := Overlay(Some(PodOverlay(map[], map[], Some(spec.(initContainers := inits, containers := mains)))), []);
    assert r.pod.value.spec.value == BlankPodSpec(spec);
  }

  method ConvertTiDBTemplate(t: Template) returns (r: Template)
    ensures r == Converted(t)
  {
    r := t;
    r := r.(labels := r.labels - IGNORED_LABELS);
    r := r.(annotations := r.annotations - IGNORED_ANNOTATIONS);
    if r.slowLog.Some? {
      r := r.(slowLog := Some(r.slowLog.value.(image := None)));
    }
    if r.mode.Unset? {
      r := r.(mode := Normal);
    }
    r := r.(serverLabels := map[]);
    var volumes := ConvertVolumes(r.volumes);
    var overlay := ConvertOverlay(r.overlay);
    r := r.(volumes := volumes, overlay := Some(overlay));
  }

  // ---------------------------------------------------------------- comparison

  /** `c` is the current template, `p` the previous one. */
  predicate EqualTemplates(c: Template, p: Template)
  {
    var c, p := Converted(c), Converted(p);
    && !(c.configStrategy.Restart? && p.config != c.config)
    && if p.mode.StandBy? && c.mode.Normal? then Activated(p) == Activated(c) else Stable(p) == Stable(c)
  }

  /** What must agree in any case. */
  function Stable(t: Template): Template { t.(config := "", configStrategy := StrategyUnset) }

  /** What must agree when a standby instance becomes a normal one. */
  function Activated(t: Template): Template
  {
    Stable(t.(mode := Unset, keyspace := "", labels := map[], annotations := map[]))
  }

  method EqualTiDBTemplate(current: Template, previous: Template) returns (equal: bool)
    ensures equal <==> EqualTemplates(current, previous)
  {
    var p := ConvertTiDBTemplate(previous);
    var c := ConvertTiDBTemplate(current);
    if c.configStrategy.Restart? && p.config != c.config {
      return false;
    }
    if p.mode.StandBy? && c.mode.Normal? {
      p := p.(mode := Unset, keyspace := "", labels := map[], annotations := map[]);
      c := c.(mode := Unset, keyspace := "", labels := map[], annotations := map[]);
    }
    p := p.(config := "", configStrategy := StrategyUnset);
    c := c.(config := "", configStrategy := StrategyUnset);
    return p == c;
  }

  const FEATURE_MODIFICATION := "FeatureModification"

  /** Whether a component can take over a changed feature list; `unreloadable` lists, per feature,
      the components that must restart. */
  predicate FeaturesReloadable(component: string, update: seq<string>, current: seq<string>,
                               unreloadable: map<string, seq<string>>)
  {
    var updateSet, currentSet := (set f | f in update), (set f | f in current);
    FEATURE_MODIFICATION in currentSet ==>
      forall f | f in (updateSet - currentSet) + (currentSet - updateSet) ::
        f in unreloadable ==> component !in unreloadable[f]
  }

  predicate CheckTiDB(group: Group, db: TiDB, unreloadable: map<string, seq<string>>)
  {
    && EqualTemplates(group.template, db.template)
    && FeaturesReloadable("tidb", group.features, db.features, unreloadable)
  }

  // ---------------------------------------------------------------- what needs a restart

  predicate SameVolumes(a: seq<Volume>, b: seq<Volume>)
  {
    |a| == |b| && forall i | 0 <= i < |a| :: a[i].name == b[i].name && a[i].mounts == b[i].mounts
  }

  /** Images matter only for containers with the name of a component's own one. */
  predicate SamePods(a: PodSpec, b: PodSpec)
  {
    && a.rest == b.rest && |a.initContainers| == |b.initContainers| && |a.containers| == |b.containers|
    && (forall i | 0 <= i < |a.initContainers| ::
          a.initContainers[i].name == b.initContainers[i].name && a.initContainers[i].rest == b.initContainers[i].rest)
    && forall i | 0 <= i < |a.containers| ::
         && a.containers[i].name == b.containers[i].name && a.containers[i].rest == b.containers[i].rest
         && (a.containers[i].name in MAIN_CONTAINERS ==> a.containers[i].image == b.containers[i].image)
  }

  predicate SameTags(a: Tags, b: Tags, ignored: set<string>)
  {
    forall k | k in a.Keys + b.Keys && k !in ignored :: k in a && k in b && a[k] == b[k]
  }

  lemma TagsExactly(a: Tags, b: Tags, ignored: set<string>)
    ensures a - ignored == b - ignored <==> SameTags(a, b, ignored)
  {
    var x, y := a - ignored, b - ignored;
    assert forall k :: k in x <==> k in a && k !in ignored;
    assert forall k :: k in y <==> k in b && k !in ignored;
    if SameTags(a, b, ignored) {
      assert x.Keys == y.Keys;
    }
    if x == y {
      forall k | k in a.Keys + b.Keys && k !in ignored ensures k in a && k in b && a[k] == b[k] {
        assert k in x && x[k] == y[k];
      }
    }
  }

  lemma VolumesExactly(a: seq<Volume>, b: seq<Volume>)
    ensures BlankVolumes(a) == BlankVolumes(b) <==> SameVolumes(a, b)
  {
    var x, y := BlankVolumes(a), BlankVolumes(b);
    if x == y {
      forall i | 0 <= i < |a| ensures a[i].name == b[i].name && a[i].mounts == b[i].mounts { assert x[i] == y[i]; }
    }
  }

  lemma PodsExactly(a: PodSpec, b: PodSpec)
    ensures BlankPodSpec(a) == BlankPodSpec(b) <==> SamePods(a, b)
  {
    var x, y := BlankPodSpec(a), BlankPodSpec(b);
    if x == y {
      forall i | 0 <= i < |a.initContainers|
        ensures BlankInit(a.initContainers[i]) == BlankInit(b.initContainers[i])
      {
        assert x.initContainers[i] == y.initContainers[i];
      }
      forall i | 0 <= i < |a.containers|
        ensures BlankSidecar(a.containers[i]) == BlankSidecar(b.containers[i])
      {
        assert x.containers[i] == y.containers[i];
      }
    }
    if SamePods(a, b) {
      assert x.initContainers == y.initContainers;
      assert x.containers == y.containers;
    }
  }

  /** An instance is reloaded instead of restarted exactly if its config is unchanged or need not be reread by a
      restart, nothing differs that reaches its containers, and, unless a standby instance becomes a normal one,
      mode, keyspace, labels and annotations agree too; and no feature differs that it cannot change while
      features may be modified. */
  lemma ReloadsExactly(group: Group, db: TiDB, unreloadable: map<string, seq<string>>)
    ensures CheckTiDB(group, db, unreloadable) <==>
              var c, p := group.template, db.template;
              && (c.configStrategy.Restart? ==> c.config == p.config)
              && c.rest == p.rest && SameVolumes(c.volumes, p.volumes) && SamePods(SpecOf(c.overlay), SpecOf(p.overlay))
              && (c.slowLog.Some? <==> p.slowLog.Some?)
              && (c.slowLog.Some? && p.slowLog.Some? ==> c.slowLog.value.rest == p.slowLog.value.rest)
              && ((p.mode.StandBy? && !c.mode.StandBy?)
                  || (&& (c.mode.StandBy? <==> p.mode.StandBy?) && c.keyspace == p.keyspace
                      && SameTags(c.labels, p.labels, IGNORED_LABELS)
                      && SameTags(c.annotations, p.annotations, IGNORED_ANNOTATIONS)))
              && !("FeatureModification" in db.features
                   && exists f :: ((f in group.features) != (f in db.features))
                                  && f in unreloadable && "tidb" in unreloadable[f])
  {
    hide SamePods, SameVolumes, SameTags, BlankVolumes, BlankPodSpec, SpecOf, FeaturesReloadable;
    TemplatesExactly(group.template, db.template);
    FeaturesExactly("tidb", group.features, db.features, unreloadable);
  }

  lemma TemplatesExactly(c: Template, p: Template)
    ensures EqualTemplates(c, p) <==>
              && (c.configStrategy.Restart? ==> c.config == p.config)
              && c.rest == p.rest && SameVolumes(c.volumes, p.volumes) && SamePods(SpecOf(c.overlay), SpecOf(p.overlay))
              && (c.slowLog.Some? <==> p.slowLog.Some?)
              && (c.slowLog.Some? && p.slowLog.Some? ==> c.slowLog.value.rest == p.slowLog.value.rest)
              && ((p.mode.StandBy? && !c.mode.StandBy?)
                  || (&& (c.mode.StandBy? <==> p.mode.StandBy?) && c.keyspace == p.keyspace
                      && SameTags(c.labels, p.labels, IGNORED_LABELS)
                      && SameTags(c.annotations, p.annotations, IGNORED_ANNOTATIONS)))
  {
    hide SamePods, SameVolumes, SameTags, BlankVolumes, BlankPodSpec, SpecOf;
    VolumesExactly(c.volumes, p.volumes);
    PodsExactly(SpecOf(c.overlay), SpecOf(p.overlay));
    TagsExactly(c.labels, p.labels, IGNORED_LABELS);
    TagsExactly(c.annotations, p.annotations, IGNORED_ANNOTATIONS);
  }

  lemma FeaturesExactly(component: string, update: seq<string>, current: seq<string>,
                        unreloadable: map<string, seq<string>>)
    ensures FeaturesReloadable(component, update, current, unreloadable) <==>
              !("FeatureModification" in current
                && exists f :: ((f in update) != (f in current)) && f in unreloadable && component in unreloadable[f])
  {
    var updateSet, currentSet := (set f | f in update), (set f | f in current);
    var changed := (updateSet - currentSet) + (currentSet - updateSet);
    assert forall f :: f in changed <==> (f in update) != (f in current);
    assert FEATURE_MODIFICATION in currentSet <==> "FeatureModification" in current;
  }

  // ---------------------------------------------------------------- the adoption hash

  datatype Hashable = Hashable(features: seq<string>, template: Template)

  /** What the adoption hash is computed from. */
  function HashInput(features: seq<string>, t: Template): Hashable
  {
    Hashable(features,
      Converted(t).(annotations := map[], labels := map[], mode := Unset, keyspace := "",
                    configStrategy := StrategyUnset))
  }

  ghost predicate Injective(hash: Hashable -> string)
  {
    forall a, b :: hash(a) == hash(b) ==> a == b
  }

  /** Equal adoption hashes settle everything except what only a standby instance may change, so
      `CheckTiDB` holds exactly when the instance is a standby one or these agree as well. An
      instance whose mode is unset is a normal one here, although it is registered as adoptable. */
  lemma HashDecidesReload(group: Group, db: TiDB, hash: Hashable -> string, unreloadable: map<string, seq<string>>)
    requires Injective(hash)
    requires hash(HashInput(group.features, group.template)) == hash(HashInput(db.features, db.template))
    requires !group.template.mode.StandBy?
    ensures CheckTiDB(group, db, unreloadable) <==>
              || db.template.mode.StandBy?
              || (&& group.template.keyspace == db.template.keyspace
                  && group.template.labels - IGNORED_LABELS == db.template.labels - IGNORED_LABELS
                  && group.template.annotations - IGNORED_ANNOTATIONS == db.template.annotations - IGNORED_ANNOTATIONS)
  {
    hide BlankVolumes, BlankPodSpec, SpecOf;
    var g, d := Converted(group.template), Converted(db.template);
    var hg, hd := HashInput(group.features, group.template), HashInput(db.features, db.template);
    assert hg == hd;
    assert g == hg.template.(annotations := g.annotations, labels := g.labels, mode := g.mode,
                             keyspace := g.keyspace, configStrategy := g.configStrategy);
    assert d == hd.template.(annotations := d.annotations, labels := d.labels, mode := d.mode,
                             keyspace := d.keyspace, configStrategy := d.configStrategy);
  }
}
