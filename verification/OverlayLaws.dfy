/** What an overlay does to a value, told from both sides: everything the overlay sets is there afterwards,
    and what it leaves unset is as it was. */
module OverlayLaws {
  import opened Wrappers
  import opened Strings
  import opened Overlay
  import opened OverlayCode
  import opened PodOverlay

  /** The items agree on every key field. */
  predicate SameKey(keys: seq<nat>, x: Value, y: Value)
  {
    && x.Record? && y.Record?
    && forall i | 0 <= i < |keys| ::
         keys[i] < |x.fields| && keys[i] < |y.fields| && x.fields[keys[i]] == y.fields[keys[i]]
  }

  /** `m` has all that `b` sets: scalars that are not zero, collections replaced as a whole that are not empty,
      whole values, and so on below pointers, in map entries, in items by key and in fields. */
  ghost predicate Carries(s: Schema, b: Value, m: Value)
    decreases s, 0
  {
    match s
    case Scalar(zero) => b == Text(zero) || m == b
    case Atomic => m == b
    case AtomicList => b == List([]) || m == b
    case AtomicMap => b == Dict(map[]) || m == b
    case Nilable(elem) => b.Nil? || (b.Ptr? && m.Ptr? && Carries(elem, b.value, m.value))
    case MapOf(elem) =>
      && b.Dict? && m.Dict?
      && forall k | k in b.entries :: k in m.entries && Carries(elem, b.entries[k], m.entries[k])
    case KeyedList(keys, elem) =>
      && b.List? && m.List?
      && forall j | 0 <= j < |b.items| :: HasItem(keys, elem, b.items[j], m.items)
    case Struct(fields) =>
      && b.Record? && m.Record? && |b.fields| == |m.fields| == |fields|
      && forall i | 0 <= i < |fields| :: Carries(fields[i], b.fields[i], m.fields[i])
  }

  /** Some item of the list has the key of `x` and all that `x` sets. */
  ghost predicate HasItem(keys: seq<nat>, elem: Schema, x: Value, l: seq<Value>)
    decreases elem, 1
  {
    exists i | 0 <= i < |l| :: SameKey(keys, x, l[i]) && Carries(elem, x, l[i])
  }

  /** Where `b` sets nothing, `m` has what `a` has, and it has nothing that neither has. Items of `a` keep their
      places. A whole value is always set. */
  ghost predicate Keeps(s: Schema, a: Value, b: Value, m: Value)
    decreases s
  {
    match s
    case Scalar(zero) => b == Text(zero) ==> m == a
    case Atomic => true
    case AtomicList => b == List([]) ==> m == a
    case AtomicMap => b == Dict(map[]) ==> m == a
    case Nilable(elem) =>
      && (b.Nil? ==> m == a) && (a.Nil? ==> m == b)
      && (a.Ptr? && b.Ptr? ==> m.Ptr? && Keeps(elem, a.value, b.value, m.value))
    case MapOf(elem) =>
      && a.Dict? && b.Dict? && m.Dict? && m.entries.Keys == a.entries.Keys + b.entries.Keys
      && forall k | k in m.entries ::
           if k !in b.entries then m.entries[k] == a.entries[k]
           else if k !in a.entries then m.entries[k] == b.entries[k]
           else Keeps(elem, a.entries[k], b.entries[k], m.entries[k])
    case KeyedList(keys, elem) =>
      && a.List? && b.List? && m.List? && |a.items| <= |m.items| <= |a.items| + |b.items|
      && (forall i | 0 <= i < |a.items| && (forall y | y in b.items :: !SameKey(keys, a.items[i], y)) ::
            m.items[i] == a.items[i])
      && (forall i, j | 0 <= i < |a.items| && 0 <= j < |b.items| && SameKey(keys, a.items[i], b.items[j]) ::
            SameKey(keys, a.items[i], m.items[i]) && Keeps(elem, a.items[i], b.items[j], m.items[i]))
      && forall i | |a.items| <= i < |m.items| ::
           m.items[i] in b.items && forall j | 0 <= j < |a.items| :: !SameKey(keys, a.items[j], m.items[i])
    case Struct(fields) =>
      && a.Record? && b.Record? && m.Record? && |a.fields| == |b.fields| == |m.fields| == |fields|
      && forall i | 0 <= i < |fields| :: Keeps(fields[i], a.fields[i], b.fields[i], m.fields[i])
  }

  lemma SameKeyExactly(keys: seq<nat>, x: Value, y: Value)
    requires HasKey(keys, x) && HasKey(keys, y)
    ensures SameKey(keys, x, y) <==> KeyOf(keys, x) == KeyOf(keys, y)
  {
    hide KeyOf;
    KeysIdentify(keys, x, y);
  }

  lemma {:induction false} CarriesItself(s: Schema, v: Value)
    requires HasType(s, v)
    ensures Carries(s, v, v)
  {
    match s
    case Nilable(elem) => if v.Ptr? { CarriesItself(elem, v.value); }
    case MapOf(elem) =>
      forall k | k in v.entries ensures Carries(elem, v.entries[k], v.entries[k]) {
        CarriesItself(elem, v.entries[k]);
      }
    case KeyedList(keys, elem) =>
      forall j | 0 <= j < |v.items| ensures HasItem(keys, elem, v.items[j], v.items) {
        CarriesItself(elem, v.items[j]);
        assert SameKey(keys, v.items[j], v.items[j]);
      }
    case Struct(fields) =>
      forall i | 0 <= i < |fields| ensures Carries(fields[i], v.fields[i], v.fields[i]) {
        CarriesItself(fields[i], v.fields[i]);
      }
    case _ =>
  }

  lemma {:induction false} FreshHolds(keys: seq<nat>, l: seq<Value>, ks: seq<string>, x: Value)
    requires AllKeyed(keys, l)
    ensures x in Fresh(keys, l, ks) <==> x in l && KeyOf(keys, x) !in ks
  {
    hide KeyOf, HasKey;
    if l != [] {
      FreshHolds(keys, l[..|l| - 1], ks, x);
      assert l == l[..|l| - 1] + [l[|l| - 1]];
    }
  }

  lemma {:induction false} FreshIsNoLonger(keys: seq<nat>, l: seq<Value>, ks: seq<string>)
    requires AllKeyed(keys, l)
    ensures |Fresh(keys, l, ks)| <= |l|
  {
    hide KeyOf, HasKey;
    if l != [] { FreshIsNoLonger(keys, l[..|l| - 1], ks); }
  }

  /** The item under a key that both lists have. */
  lemma MergedPair(keys: seq<nat>, elem: Schema, a: seq<Value>, b: seq<Value>, i: nat, j: nat)
    requires WellFormed(KeyedList(keys, elem)) && ListTyped(keys, elem, a) && ListTyped(keys, elem, b)
    requires i < |a| && j < |b| && SameKey(keys, a[i], b[j])
    ensures MergeItem(keys, elem, a[i], b) == Merge(elem, a[i], b[j])
    ensures SameKey(keys, a[i], Merge(elem, a[i], b[j])) && SameKey(keys, b[j], Merge(elem, a[i], b[j]))
  {
    hide KeyOf, HasKey, HasType, Merge;
    SameKeyExactly(keys, a[i], b[j]);
    var ks := KeysOf(keys, b);
    assert ks[j] == KeyOf(keys, a[i]);
    FindIsSound(ks, ks[j]);
    MergeKeepsKey(keys, elem, a[i], b[j]);
    SameKeyExactly(keys, a[i], Merge(elem, a[i], b[j]));
    SameKeyExactly(keys, b[j], Merge(elem, a[i], b[j]));
  }

  lemma MergedAlone(keys: seq<nat>, elem: Schema, item: Value, b: seq<Value>)
    requires HasKey(keys, item) && HasType(elem, item) && ListTyped(keys, elem, b)
    requires forall y | y in b :: !SameKey(keys, item, y)
    ensures MergeItem(keys, elem, item, b) == item
  {
    hide KeyOf, HasKey, HasType, Merge;
    var ks := KeysOf(keys, b);
    FindIsSound(ks, KeyOf(keys, item));
    forall j | 0 <= j < |b| ensures ks[j] != KeyOf(keys, item) {
      assert b[j] in b;
      SameKeyExactly(keys, item, b[j]);
    }
  }

  /** Everything that the overlay sets is in the merge, at every depth. */
  lemma {:induction false} OverlayIsCarried(s: Schema, a: Value, b: Value)
    requires WellFormed(s) && HasType(s, a) && HasType(s, b)
    ensures Carries(s, b, Merge(s, a, b))
    decreases s, 1
  {
    match s
    case Nilable(elem) =>
      if a.Ptr? && b.Ptr? { OverlayIsCarried(elem, a.value, b.value); }
      if a.Nil? && b.Ptr? { CarriesItself(elem, b.value); }
    case MapOf(elem) =>
      forall k | k in b.entries ensures Carries(elem, b.entries[k], Merge(s, a, b).entries[k]) {
        if k in a.entries {
          OverlayIsCarried(elem, a.entries[k], b.entries[k]);
        } else {
          CarriesItself(elem, b.entries[k]);
        }
      }
    case KeyedList(keys, elem) => ItemsAreCarried(keys, elem, a.items, b.items);
    case Struct(fields) =>
      forall i | 0 <= i < |fields|
        ensures Carries(fields[i], b.fields[i], Merge(fields[i], a.fields[i], b.fields[i]))
      {
        assert fields[i] in fields;
        OverlayIsCarried(fields[i], a.fields[i], b.fields[i]);
      }
    case _ =>
  }

  lemma {:induction false} ItemsAreCarried(keys: seq<nat>, elem: Schema, a: seq<Value>, b: seq<Value>)
    requires WellFormed(KeyedList(keys, elem)) && ListTyped(keys, elem, a) && ListTyped(keys, elem, b)
    ensures Carries(KeyedList(keys, elem), List(b), List(MergeList(keys, elem, a, b)))
    decreases elem, 2
  {
    hide KeyOf, HasKey, HasType, Merge, MergeItem, Fresh, Unique, MergeList, SameKey;
    var m, ks := MergeList(keys, elem, a, b), KeysOf(keys, a);
    var more := Fresh(keys, b, ks);
    MergeListItems(keys, elem, a, b);
    forall j | 0 <= j < |b| ensures HasItem(keys, elem, b[j], m) {
      if i :| 0 <= i < |a| && SameKey(keys, a[i], b[j]) {
        MergedPair(keys, elem, a, b, i, j);
        OverlayIsCarried(elem, a[i], b[j]);
        assert SameKey(keys, b[j], m[i]) && Carries(elem, b[j], m[i]);
      } else {
        forall i | 0 <= i < |a| ensures ks[i] != KeyOf(keys, b[j]) { SameKeyExactly(keys, a[i], b[j]); }
        FreshHolds(keys, b, ks, b[j]);
        var f :| 0 <= f < |more| && more[f] == b[j];
        assert m[|a| + f] == b[j];
        CarriesItself(elem, b[j]);
        SameKeyExactly(keys, b[j], b[j]);
        assert SameKey(keys, b[j], m[|a| + f]) && Carries(elem, b[j], m[|a| + f]);
      }
    }
  }

  /** What the overlay leaves unset is as before, and nothing else appears. */
  lemma {:induction false} RestIsKept(s: Schema, a: Value, b: Value)
    requires WellFormed(s) && HasType(s, a) && HasType(s, b)
    ensures Keeps(s, a, b, Merge(s, a, b))
    decreases s, 1
  {
    match s
    case Nilable(elem) => if a.Ptr? && b.Ptr? { RestIsKept(elem, a.value, b.value); }
    case MapOf(elem) =>
      forall k | k in a.entries && k in b.entries
        ensures Keeps(elem, a.entries[k], b.entries[k], Merge(s, a, b).entries[k])
      {
        RestIsKept(elem, a.entries[k], b.entries[k]);
      }
    case KeyedList(keys, elem) => ItemsAreKept(keys, elem, a.items, b.items);
    case Struct(fields) =>
      forall i | 0 <= i < |fields|
        ensures Keeps(fields[i], a.fields[i], b.fields[i], Merge(fields[i], a.fields[i], b.fields[i]))
      {
        assert fields[i] in fields;
        RestIsKept(fields[i], a.fields[i], b.fields[i]);
      }
    case _ =>
  }

  lemma {:induction false} ItemsAreKept(keys: seq<nat>, elem: Schema, a: seq<Value>, b: seq<Value>)
    requires WellFormed(KeyedList(keys, elem)) && ListTyped(keys, elem, a) && ListTyped(keys, elem, b)
    ensures Keeps(KeyedList(keys, elem), List(a), List(b), List(MergeList(keys, elem, a, b)))
    decreases elem, 2
  {
    hide KeyOf, HasKey, HasType, Merge, MergeItem, Fresh, Unique, MergeList, SameKey;
    var m, ks := MergeList(keys, elem, a, b), KeysOf(keys, a);
    var more := Fresh(keys, b, ks);
    MergeListItems(keys, elem, a, b);
    FreshIsNoLonger(keys, b, ks);
    forall i | 0 <= i < |a| && (forall y | y in b :: !SameKey(keys, a[i], y)) ensures m[i] == a[i] {
      MergedAlone(keys, elem, a[i], b);
    }
    forall i, j | 0 <= i < |a| && 0 <= j < |b| && SameKey(keys, a[i], b[j])
      ensures SameKey(keys, a[i], m[i]) && Keeps(elem, a[i], b[j], m[i])
    {
      MergedPair(keys, elem, a, b, i, j);
      RestIsKept(elem, a[i], b[j]);
    }
    forall i | |a| <= i < |m| ensures m[i] in b && forall j | 0 <= j < |a| :: !SameKey(keys, a[j], m[i]) {
      FreshHolds(keys, b, ks, m[i]);
      forall j | 0 <= j < |a| ensures !SameKey(keys, a[j], m[i]) {
        assert ks[j] == KeyOf(keys, a[j]);
        SameKeyExactly(keys, a[j], m[i]);
      }
    }
  }

  // ---------------------------------------------------------------- pods

  /** Every field that a pod overlay sets is set in the pod, every other is as it was. The node selector has the
      overlay's entries where the pod had none of that name. */
  lemma PodOverlayWins(s: Schema, ns: nat, pod: Pod, o: Settings, r: Pod, i: nat)
    requires IsPodSpec(s, ns) && Typed(s, pod, Some(o)) && Fits(s, pod, Some(o)) && Overlaid(s, ns, pod, Some(o), r)
    requires o.spec.Some? && i < |s.fields|
    ensures r.spec.Record? && |r.spec.fields| == |s.fields|
    ensures i != ns ==>
              && Carries(s.fields[i], o.spec.value.fields[i], r.spec.fields[i])
              && Keeps(s.fields[i], pod.spec.fields[i], o.spec.value.fields[i], r.spec.fields[i])
    ensures var asked := o.spec.value.fields[ns];
            asked.Ptr? && asked.value.Dict? ==>
              forall k | k in asked.value.entries && k !in Selected(pod.spec.fields[ns]) ::
                k in Selected(r.spec.fields[ns]) && Selected(r.spec.fields[ns])[k] == asked.value.entries[k]
  {
    hide Laid, Merge, Carries, Keeps;
    SelectorShape(pod.spec.fields[ns]);
    FieldFits(s, i);
    if i != ns {
      var a, b := pod.spec.fields[i], o.spec.value.fields[i];
      LaidIsMerged(s.fields[i], a, b);
      OverlayIsCarried(s.fields[i], a, b);
      RestIsKept(s.fields[i], a, b);
    }
  }

  /** A scalar that a pod overlay sets is the pod's afterwards, whatever it was and whatever the lists hold. */
  lemma ScalarIsOverlaid(s: Schema, ns: nat, pod: Pod, o: Settings, r: Pod, i: nat, zero: string)
    requires IsPodSpec(s, ns) && Fits(s, pod, Some(o)) && Overlaid(s, ns, pod, Some(o), r)
    requires o.spec.Some? && i < |s.fields| && s.fields[i] == Scalar(zero)
    ensures r.spec.Record? && |r.spec.fields| == |s.fields|
    ensures o.spec.value.fields[i] != Text(zero) ==> r.spec.fields[i] == o.spec.value.fields[i]
    ensures o.spec.value.fields[i] == Text(zero) ==> r.spec.fields[i] == pod.spec.fields[i]
  {
    FieldFits(s, i);
    assert Shaped(Scalar(zero), pod.spec.fields[i]) && Shaped(Scalar(zero), o.spec.value.fields[i]);
  }

  /** A label or annotation that a pod overlay has is the pod's afterwards; any other is as it was. */
  lemma MetadataIsOverlaid(s: Schema, ns: nat, pod: Pod, o: Settings, r: Pod, k: string)
    requires IsPodSpec(s, ns) && Fits(s, pod, Some(o)) && Overlaid(s, ns, pod, Some(o), r)
    ensures TagOf(r.labels, k) == (if TagOf(o.labels, k).Some? then TagOf(o.labels, k) else TagOf(pod.labels, k))
    ensures TagOf(r.annotations, k) ==
              (if TagOf(o.annotations, k).Some? then TagOf(o.annotations, k) else TagOf(pod.annotations, k))
  {
    hide Laid;
  }

  function TagOf(m: Labels, k: string): Option<string>
  {
    if m.Some? && k in m.value then Some(m.value[k]) else None
  }
}
