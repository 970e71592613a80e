/** The overlay of a pod. */
module PodOverlay {
  import opened Wrappers
  import opened Overlay
  import opened OverlayCode

  type Labels = Option<map<string, string>>

  datatype Pod = Pod(labels: Labels, annotations: Labels, spec: Value)
  datatype Settings = Settings(labels: Labels, annotations: Labels, spec: Option<Value>)

  /** The schema of a pod spec, whose node selector, at `ns`, is replaced as a whole. */
  predicate IsPodSpec(s: Schema, ns: nat)
  {
    s.Struct? && WellFormed(s) && ns < |s.fields| && s.fields[ns] == Nilable(AtomicMap)
  }

  const TEXT := Scalar("")
  const NUMBER := Scalar("0")
  const FLAG := Scalar("false")

  /** The types nested in a pod spec. */
  datatype Nested = Nested(volume: Schema, container: Schema, ephemeralContainer: Schema, securityContext: Schema,
                           affinity: Schema, hostAlias: Schema, dnsConfig: Schema, spreadConstraint: Schema, os: Schema,
                           schedulingGate: Schema, resourceClaim: Schema, resources: Schema)

  /** Every struct that is keyed by its name, address or topology has a scalar there. */
  predicate Usable(n: Nested)
  {
    && WellFormed(KeyedList([0], n.volume)) && WellFormed(KeyedList([0], n.container))
    && WellFormed(KeyedList([0], n.ephemeralContainer)) && WellFormed(KeyedList([0], n.hostAlias))
    && WellFormed(KeyedList([1, 2], n.spreadConstraint)) && WellFormed(KeyedList([0], n.schedulingGate))
    && WellFormed(KeyedList([0], n.resourceClaim)) && WellFormed(n.securityContext) && WellFormed(n.affinity)
    && WellFormed(n.dnsConfig) && WellFormed(n.os) && WellFormed(n.resources)
  }

  /** Each field is a scalar or may be nil, so that nothing replaced as a whole sits bare. */
  predicate Sheltered(fs: seq<Schema>)
  {
    forall f | f in fs :: WellFormed(f) && (f.Scalar? || f.Nilable?)
  }

  const NODE_SELECTOR: nat := 8

  /** The fields of a pod spec in the order in which they are overlaid. The embedded fields of an ephemeral
      container come before its target. */
  function PodSpec(n: Nested): Schema
  {
    Struct(Workload(n) + [Nilable(AtomicMap)] + Host(n) + Scheduling(n) + Runtime(n) + Claims(n))
  }

  /** From Volumes to DNSPolicy, which NodeSelector follows. */
  function Workload(n: Nested): (fs: seq<Schema>)
    ensures Usable(n) ==> Sheltered(fs)
  {
    [Nilable(KeyedList([0], n.volume)), Nilable(KeyedList([0], n.container)), Nilable(KeyedList([0], n.container)),
     Nilable(KeyedList([0], n.ephemeralContainer)), TEXT, Nilable(NUMBER), Nilable(NUMBER), TEXT]
  }

  /** From ServiceAccountName to ImagePullSecrets. */
  function Host(n: Nested): (fs: seq<Schema>)
    ensures Usable(n) ==> Sheltered(fs)
  {
    [TEXT, TEXT, Nilable(FLAG), TEXT, FLAG, FLAG, FLAG, Nilable(FLAG), Nilable(n.securityContext),
     Nilable(KeyedList([0], Atomic))]
  }

  /** From Hostname to Priority. */
  function Scheduling(n: Nested): (fs: seq<Schema>)
    ensures Usable(n) ==> Sheltered(fs)
  {
    [TEXT, TEXT, Nilable(n.affinity), TEXT, Nilable(AtomicList), Nilable(KeyedList([0], n.hostAlias)), TEXT,
     Nilable(NUMBER)]
  }

  /** From DNSConfig to TopologySpreadConstraints. */
  function Runtime(n: Nested): (fs: seq<Schema>)
    ensures Usable(n) ==> Sheltered(fs)
  {
    [Nilable(n.dnsConfig), Nilable(AtomicList), Nilable(TEXT), Nilable(FLAG), Nilable(TEXT), Nilable(MapOf(Atomic)),
     Nilable(KeyedList([1, 2], n.spreadConstraint))]
  }

  /** From SetHostnameAsFQDN to Resources. */
  function Claims(n: Nested): (fs: seq<Schema>)
    ensures Usable(n) ==> Sheltered(fs)
  {
    [Nilable(FLAG), Nilable(n.os), Nilable(FLAG), Nilable(KeyedList([0], n.schedulingGate)),
     Nilable(KeyedList([0], n.resourceClaim)), Nilable(n.resources)]
  }

  /** A pod spec has a node selector, and no struct in it that is replaced as a whole sits bare. */
  lemma PodSpecIsPodSpec(n: Nested)
    requires Usable(n)
    ensures IsPodSpec(PodSpec(n), NODE_SELECTOR) && NoBareAtomic(PodSpec(n))
  {
    hide Usable, Host, Scheduling, Runtime, Claims, Sheltered;
    SelectorIsSheltered();
    var early := Workload(n) + [Nilable(AtomicMap)] + Host(n);
    Together(Workload(n), [Nilable(AtomicMap)]);
    Together(Workload(n) + [Nilable(AtomicMap)], Host(n));
    Together(early, Scheduling(n));
    Together(early + Scheduling(n), Runtime(n));
    Together(early + Scheduling(n) + Runtime(n), Claims(n));
    assert PodSpec(n).fields[NODE_SELECTOR] == Nilable(AtomicMap);
    ShelteredIsFit(PodSpec(n).fields);
  }

  lemma SelectorIsSheltered()
    ensures Sheltered([Nilable(AtomicMap)])
  {
  }

  lemma Together(a: seq<Schema>, b: seq<Schema>)
    requires Sheltered(a) && Sheltered(b)
    ensures Sheltered(a + b)
  {
  }

  lemma ShelteredIsFit(fs: seq<Schema>)
    requires Sheltered(fs)
    ensures WellFormed(Struct(fs)) && NoBareAtomic(Struct(fs))
  {
  }

  predicate Fits(s: Schema, pod: Pod, overlay: Option<Settings>)
  {
    && Shaped(s, pod.spec)
    && (overlay.Some? && overlay.value.spec.Some? ==> Shaped(s, overlay.value.spec.value))
  }

  /** Lists have unique keys that hold no comma. */
  predicate Typed(s: Schema, pod: Pod, overlay: Option<Settings>)
  {
    && HasType(s, pod.spec)
    && (overlay.Some? && overlay.value.spec.Some? ==> HasType(s, overlay.value.spec.value))
  }

  function Entries(m: Labels): map<string, string> { if m.None? then map[] else m.value }

  /** The entries of a node selector that may be unset. */
  function Selected(v: Value): map<string, Value>
  {
    if v.Ptr? && v.value.Dict? then v.value.entries else map[]
  }

  /** What the overlay asks of field `i` of the spec. */
  function Asked(s: Schema, o: Settings, i: nat): Value
    requires s.Struct? && i < |s.fields| && (o.spec.Some? ==> Shaped(s, o.spec.value))
    ensures Shaped(s.fields[i], Asked(s, o, i))
  {
    TypedIsShaped(s.fields[i], Zero(s.fields[i]));
    if o.spec.None? then Zero(s.fields[i]) else o.spec.value.fields[i]
  }

  lemma FieldFits(s: Schema, i: nat)
    requires s.Struct? && WellFormed(s) && i < |s.fields|
    ensures WellFormed(s.fields[i])
  {
    assert s.fields[i] in s.fields;
  }

  /** The pod that an overlay makes: metadata entries of the overlay win, entries of the pod's own
      node selector win, and every other field is merged if the overlay has a spec or the pod a
      node selector. */
  predicate Overlaid(s: Schema, ns: nat, pod: Pod, overlay: Option<Settings>, r: Pod)
    requires IsPodSpec(s, ns) && Fits(s, pod, overlay)
  {
    if overlay.None? then r == pod
    else
      var o := overlay.value;
      var selector := pod.spec.fields[ns];
      && r.labels == (if o.labels.None? then pod.labels else Some(Entries(pod.labels) + o.labels.value))
      && r.annotations ==
           (if o.annotations.None? then pod.annotations else Some(Entries(pod.annotations) + o.annotations.value))
      && Shaped(s, r.spec)
      && r.spec.fields[ns] == (if selector.Nil? then Asked(s, o, ns)
                               else Ptr(Dict(Selected(Asked(s, o, ns)) + Selected(selector))))
      && forall i | 0 <= i < |s.fields| && i != ns ::
           r.spec.fields[i] == if o.spec.None? && selector.Nil? then pod.spec.fields[i]
                               else (FieldFits(s, i); Laid(s.fields[i], pod.spec.fields[i], Asked(s, o, i)))
  }

  /** Metadata maps are created on demand and the overlay's entries copied in. */
  method OverlayEntries(dst: Labels, src: Labels) returns (r: Labels)
    ensures src.None? ==> r == dst
    ensures src.Some? ==> r == Some(Entries(dst) + src.value)
  {
    r := dst;
    if src.Some? {
      if r.None? { r := Some(map[]); }
      r := Some(r.value + src.value);
    }
  }

  method OverlayPod(s: Schema, ns: nat, pod: Pod, overlay: Option<Settings>) returns (r: Pod)
    requires IsPodSpec(s, ns) && Fits(s, pod, overlay)
    ensures Overlaid(s, ns, pod, overlay, r)
  {
    hide Laid;
    if overlay.None? { return pod; }
    var src := overlay.value;
    SelectorShape(pod.spec.fields[ns]);
    if pod.spec.fields[ns].Ptr? {
      TypedIsShaped(s, Zero(s));
      var base := Zero(s);
      if src.spec.Some? { base := src.spec.value; }
      SelectorShape(base.fields[ns]);
      var selector: map<string, Value> := map[];
      if base.fields[ns].Ptr? { selector := base.fields[ns].value.entries; }
      selector := selector + pod.spec.fields[ns].value.entries;
      assert Shaped(AtomicMap, Dict(selector));
      src := src.(spec := Some(Record(base.fields[ns := Ptr(Dict(selector))])));
    }
    var labels := OverlayEntries(pod.labels, src.labels);
    var annotations := OverlayEntries(pod.annotations, src.annotations);
    var spec := pod.spec;
    if src.spec.Some? {
      spec := OverlayValue(s, spec, src.spec.value);
      LaidFields(s, pod.spec, src.spec.value);
      SelectorLaid(pod.spec.fields[ns], src.spec.value.fields[ns]);
    }
    r := Pod(labels, annotations, spec);
  }

  lemma LaidFields(s: Schema, dst: Value, src: Value)
    requires s.Struct? && WellFormed(s) && Shaped(s, dst) && Shaped(s, src)
    ensures forall i | 0 <= i < |s.fields| ::
              (FieldFits(s, i); Laid(s, dst, src).fields[i] == Laid(s.fields[i], dst.fields[i], src.fields[i]))
  {
  }

  lemma SelectorShape(v: Value)
    requires Shaped(Nilable(AtomicMap), v)
    ensures v.Nil? || v == Ptr(Dict(Selected(v)))
  {
    if v.Ptr? { assert Shaped(AtomicMap, v.value); }
  }

  lemma SelectorLaid(dst: Value, src: Value)
    requires Shaped(Nilable(AtomicMap), dst) && Shaped(Nilable(AtomicMap), src)
    requires dst.Ptr? ==> src.Ptr? && Selected(dst).Keys <= Selected(src).Keys
    ensures Laid(Nilable(AtomicMap), dst, src) == src
  {
    SelectorShape(dst);
    SelectorShape(src);
    if dst.Ptr? {
      assert Laid(AtomicMap, dst.value, src.value) == src.value;
    }
  }

  /** No entry of the node selector the pod already had is lost or changed. */
  lemma SelectorIsKept(s: Schema, ns: nat, pod: Pod, overlay: Option<Settings>, r: Pod, k: string)
    requires IsPodSpec(s, ns) && Fits(s, pod, overlay) && Overlaid(s, ns, pod, overlay, r)
    requires k in Selected(pod.spec.fields[ns])
    ensures Shaped(s, r.spec) && k in Selected(r.spec.fields[ns])
    ensures Selected(r.spec.fields[ns])[k] == Selected(pod.spec.fields[ns])[k]
  {
    SelectorShape(pod.spec.fields[ns]);
  }

  lemma CopyTwice<T>(a: map<string, T>, b: map<string, T>)
    ensures (a + b) + b == a + b && a + (a + b) == a + b && a + a == a && map[] + a == a
  {
  }

  lemma AskedIsTyped(s: Schema, pod: Pod, o: Settings, i: nat)
    requires s.Struct? && i < |s.fields| && Typed(s, pod, Some(o)) && Fits(s, pod, Some(o))
    ensures HasType(s.fields[i], Asked(s, o, i))
  {
  }

  /** Field by field, overlaying twice is overlaying once. */
  lemma FieldLaidTwice(s: Schema, a: Value, b: Value)
    requires WellFormed(s) && HasType(s, a) && HasType(s, b) && Shaped(s, a) && Shaped(s, b)
    ensures Laid(s, Laid(s, a, b), b) == Laid(s, a, b)
  {
    hide Laid, Merge, HasType, WellFormed, Shaped;
    LaidIsMerged(s, a, b);
    MergeIsTyped(s, a, b);
    LaidIsMerged(s, Merge(s, a, b), b);
    ReapplyingIsNoChange(s, a, b);
  }

  /** The overlaid pod is unique, and overlaying it again leaves it alone. */
  lemma OverlaidTwice(s: Schema, ns: nat, pod: Pod, overlay: Option<Settings>, r: Pod, q: Pod)
    requires IsPodSpec(s, ns) && Typed(s, pod, overlay) && Fits(s, pod, overlay)
    requires Overlaid(s, ns, pod, overlay, r) && Fits(s, r, overlay) && Overlaid(s, ns, r, overlay, q)
    ensures q == r
  {
    hide Laid;
    if overlay.Some? {
      var o := overlay.value;
      CopyTwice(Entries(pod.labels), Entries(o.labels));
      CopyTwice(Entries(pod.annotations), Entries(o.annotations));
      SelectorShape(pod.spec.fields[ns]);
      SelectorShape(Asked(s, o, ns));
      CopyTwice(Selected(Asked(s, o, ns)), Selected(pod.spec.fields[ns]));
      forall i | 0 <= i < |s.fields| ensures q.spec.fields[i] == r.spec.fields[i] {
        if i != ns {
          FieldFits(s, i);
          AskedIsTyped(s, pod, o, i);
          FieldLaidTwice(s.fields[i], pod.spec.fields[i], Asked(s, o, i));
        }
      }
    }
  }

  /** An overlay of metadata alone leaves the spec alone. */
  lemma MetadataOnly(s: Schema, ns: nat, pod: Pod, o: Settings, r: Pod)
    requires IsPodSpec(s, ns) && Fits(s, pod, Some(o)) && Overlaid(s, ns, pod, Some(o), r)
    requires o.spec.None? && NoBareAtomic(s)
    ensures r.spec == pod.spec
  {
    hide Laid;
    SelectorShape(pod.spec.fields[ns]);
    CopyTwice(Selected(pod.spec.fields[ns]), map[]);
    forall i | 0 <= i < |s.fields| ensures r.spec.fields[i] == pod.spec.fields[i] {
      FieldFits(s, i);
      assert s.fields[i] in s.fields;
      LaidNothing(s.fields[i], pod.spec.fields[i]);
    }
  }
}
