/** The generated overlay functions as one merge over a schema. A field is a scalar, a value or
    collection replaced as a whole, a pointer (or a slice or map that may be nil), a granular map,
    a list keyed by some of its items' fields, or a struct. */
module Overlay {
  import opened Wrappers
  import opened Strings

  datatype Schema =
    | Scalar(zero: string)
    | Atomic
    | AtomicList
    | AtomicMap
    | Nilable(elem: Schema)
    | MapOf(elem: Schema)
    | KeyedList(keys: seq<nat>, elem: Schema)
    | Struct(fields: seq<Schema>)

  datatype Value =
    | Text(text: string)
    | Nil
    | Ptr(value: Value)
    | List(items: seq<Value>)
    | Dict(entries: map<string, Value>)
    | Record(fields: seq<Value>)

  // ---------------------------------------------------------------- keys

  predicate HasRawKey(keys: seq<nat>, v: Value)
  {
    v.Record? && forall i | 0 <= i < |keys| :: keys[i] < |v.fields| && v.fields[keys[i]].Text?
  }

  predicate HasKey(keys: seq<nat>, v: Value)
  {
    HasRawKey(keys, v) && forall i | 0 <= i < |keys| :: ',' !in v.fields[keys[i]].text
  }

  function KeyParts(keys: seq<nat>, v: Value): seq<string>
    requires HasRawKey(keys, v)
  {
    seq(|keys|, i requires 0 <= i < |keys| => v.fields[keys[i]].text)
  }

  /** The key of an item, whose parts may hold commas. */
  function RawKey(keys: seq<nat>, v: Value): string
    requires HasRawKey(keys, v)
  {
    Join(KeyParts(keys, v))
  }

  function KeyOf(keys: seq<nat>, v: Value): string
    requires HasKey(keys, v)
  {
    RawKey(keys, v)
  }

  predicate AllKeyed(keys: seq<nat>, l: seq<Value>)
  {
    forall i | 0 <= i < |l| :: HasKey(keys, l[i])
  }

  function KeysOf(keys: seq<nat>, l: seq<Value>): seq<string>
    requires AllKeyed(keys, l)
  {
    seq(|l|, i requires 0 <= i < |l| => KeyOf(keys, l[i]))
  }

  predicate Unique(ks: seq<string>)
  {
    forall i, j | 0 <= i < j < |ks| :: ks[i] != ks[j]
  }

  /** Items have the same key exactly when they agree on every key field. */
  lemma KeysIdentify(keys: seq<nat>, a: Value, b: Value)
    requires HasKey(keys, a) && HasKey(keys, b)
    ensures KeyOf(keys, a) == KeyOf(keys, b) <==>
              forall i | 0 <= i < |keys| :: a.fields[keys[i]].text == b.fields[keys[i]].text
  {
    var x, y := KeyParts(keys, a), KeyParts(keys, b);
    if KeyOf(keys, a) == KeyOf(keys, b) { JoinIsInjective(x, y); }
    assert forall i | 0 <= i < |keys| :: x[i] == a.fields[keys[i]].text && y[i] == b.fields[keys[i]].text;
    assert x == y <==> forall i | 0 <= i < |keys| :: x[i] == y[i];
  }

  // ---------------------------------------------------------------- types

  /** Key fields are scalars of a struct, or belong to an item that is replaced as a whole. */
  predicate WellFormed(s: Schema)
  {
    match s
    case Nilable(elem) => WellFormed(elem)
    case MapOf(elem) => WellFormed(elem)
    case KeyedList(keys, elem) =>
      && WellFormed(elem)
      && (elem.Atomic?
          || (elem.Struct? && forall i | 0 <= i < |keys| :: keys[i] < |elem.fields| && elem.fields[keys[i]].Scalar?))
    case Struct(fields) => forall f | f in fields :: WellFormed(f)
    case _ => true
  }

  predicate HasType(s: Schema, v: Value)
  {
    match s
    case Scalar(_) => v.Text?
    case Atomic => true
    case AtomicList => v.List?
    case AtomicMap => v.Dict?
    case Nilable(elem) => v.Nil? || (v.Ptr? && HasType(elem, v.value))
    case MapOf(elem) => v.Dict? && forall k | k in v.entries :: HasType(elem, v.entries[k])
    case KeyedList(keys, elem) =>
      && v.List? && (forall i | 0 <= i < |v.items| :: HasType(elem, v.items[i]))
      && AllKeyed(keys, v.items) && Unique(KeysOf(keys, v.items))
    case Struct(fields) =>
      v.Record? && |v.fields| == |fields| && forall i | 0 <= i < |fields| :: HasType(fields[i], v.fields[i])
  }

  // ---------------------------------------------------------------- the merge

  /** Where `k` is first found. */
  function Find(ks: seq<string>, k: string): Option<nat>
  {
    if ks == [] then None
    else if ks[0] == k then Some(0)
    else match Find(ks[1..], k) case None => None case Some(i) => Some(i + 1)
  }

  /** The items whose keys are not among `ks`. */
  function Fresh(keys: seq<nat>, l: seq<Value>, ks: seq<string>): seq<Value>
    requires AllKeyed(keys, l)
  {
    if l == [] then []
    else
      var init := Fresh(keys, l[..|l| - 1], ks);
      if KeyOf(keys, l[|l| - 1]) in ks then init else init + [l[|l| - 1]]
  }

  function Merge(s: Schema, dst: Value, src: Value): Value
    requires HasType(s, dst) && HasType(s, src)
    decreases s, 0
  {
    match s
    case Scalar(zero) => if src.text == zero then dst else src
    case Atomic => src
    case AtomicList => if src.items == [] then dst else src
    case AtomicMap => if src.entries == map[] then dst else src
    case Nilable(elem) =>
      if dst.Nil? then src else if src.Nil? then dst else Ptr(Merge(elem, dst.value, src.value))
    case MapOf(elem) =>
      Dict(map k | k in dst.entries.Keys + src.entries.Keys ::
             if k !in dst.entries then src.entries[k]
             else if k !in src.entries then dst.entries[k]
             else Merge(elem, dst.entries[k], src.entries[k]))
    case KeyedList(keys, elem) => List(MergeList(keys, elem, dst.items, src.items))
    case Struct(fields) =>
      Record(seq(|fields|, i requires 0 <= i < |fields| => Merge(fields[i], dst.fields[i], src.fields[i])))
  }

  predicate ListTyped(keys: seq<nat>, elem: Schema, l: seq<Value>)
  {
    && AllKeyed(keys, l) && Unique(KeysOf(keys, l))
    && forall i | 0 <= i < |l| :: HasType(elem, l[i])
  }

  /** Existing items keep their positions; items with new keys follow in source order. */
  function MergeList(keys: seq<nat>, elem: Schema, dst: seq<Value>, src: seq<Value>): seq<Value>
    requires ListTyped(keys, elem, dst) && ListTyped(keys, elem, src)
    decreases elem, 2
  {
    seq(|dst|, i requires 0 <= i < |dst| => MergeItem(keys, elem, dst[i], src)) + Fresh(keys, src, KeysOf(keys, dst))
  }

  function MergeItem(keys: seq<nat>, elem: Schema, item: Value, src: seq<Value>): Value
    requires HasKey(keys, item) && HasType(elem, item) && ListTyped(keys, elem, src)
    decreases elem, 1
  {
    FindIsSound(KeysOf(keys, src), KeyOf(keys, item));
    match Find(KeysOf(keys, src), KeyOf(keys, item))
    case None => item
    case Some(j) => Merge(elem, item, src[j])
  }

  lemma FindIsSound(ks: seq<string>, k: string)
    ensures Find(ks, k).Some? ==> Find(ks, k).value < |ks| && ks[Find(ks, k).value] == k
    ensures Find(ks, k).None? ==> k !in ks
  {
    if ks != [] {
      FindIsSound(ks[1..], k);
      assert ks == [ks[0]] + ks[1..];
    }
  }

  // ---------------------------------------------------------------- keyed lists

  function At(keys: seq<nat>, l: seq<Value>, k: string): Option<Value>
    requires AllKeyed(keys, l)
  {
    FindIsSound(KeysOf(keys, l), k);
    match Find(KeysOf(keys, l), k)
    case None => None
    case Some(i) => Some(l[i])
  }

  lemma AtIndex(keys: seq<nat>, l: seq<Value>, i: nat)
    requires AllKeyed(keys, l) && Unique(KeysOf(keys, l)) && i < |l|
    ensures At(keys, l, KeyOf(keys, l[i])) == Some(l[i])
  {
    hide KeyOf, HasKey;
    var ks := KeysOf(keys, l);
    assert ks[i] == KeyOf(keys, l[i]);
    FindIsSound(ks, ks[i]);
  }

  lemma AtNone(keys: seq<nat>, l: seq<Value>, k: string)
    requires AllKeyed(keys, l)
    ensures At(keys, l, k).None? <==> k !in KeysOf(keys, l)
  {
    hide KeyOf, HasKey;
    FindIsSound(KeysOf(keys, l), k);
  }

  /** A list with unique keys is determined by its key sequence and its items by key. */
  lemma ListExtensional(keys: seq<nat>, x: seq<Value>, y: seq<Value>)
    requires AllKeyed(keys, x) && AllKeyed(keys, y) && Unique(KeysOf(keys, x))
    requires KeysOf(keys, x) == KeysOf(keys, y)
    requires forall k | k in KeysOf(keys, x) :: At(keys, x, k) == At(keys, y, k)
    ensures x == y
  {
    hide KeyOf, HasKey, At;
    assert |KeysOf(keys, x)| == |x| && |KeysOf(keys, y)| == |y|;
    forall i | 0 <= i < |x| ensures x[i] == y[i] {
      assert KeysOf(keys, x)[i] == KeyOf(keys, x[i]);
      assert KeysOf(keys, y)[i] == KeyOf(keys, y[i]);
      AtIndex(keys, x, i);
      AtIndex(keys, y, i);
    }
  }

  function Without(xs: seq<string>, ks: seq<string>): seq<string>
  {
    if xs == [] then []
    else
      var init := Without(xs[..|xs| - 1], ks);
      if xs[|xs| - 1] in ks then init else init + [xs[|xs| - 1]]
  }

  lemma {:induction false} WithoutHolds(xs: seq<string>, ks: seq<string>, k: string)
    ensures k in Without(xs, ks) <==> k in xs && k !in ks
  {
    if xs != [] {
      WithoutHolds(xs[..|xs| - 1], ks, k);
      assert xs == xs[..|xs| - 1] + [xs[|xs| - 1]];
    }
  }

  lemma {:induction false} WithoutIsUnique(xs: seq<string>, ks: seq<string>)
    requires Unique(xs)
    ensures Unique(Without(xs, ks))
  {
    if xs != [] {
      var init := Without(xs[..|xs| - 1], ks);
      WithoutIsUnique(xs[..|xs| - 1], ks);
      forall i | 0 <= i < |init| ensures init[i] != xs[|xs| - 1] {
        WithoutHolds(xs[..|xs| - 1], ks, init[i]);
      }
    }
  }

  lemma {:induction false} WithoutAppend(xs: seq<string>, ys: seq<string>, ks: seq<string>)
    ensures Without(xs + ys, ks) == Without(xs, ks) + Without(ys, ks)
  {
    if ys == [] {
      assert xs + ys == xs;
    } else {
      assert (xs + ys)[..|xs + ys| - 1] == xs + ys[..|ys| - 1];
      WithoutAppend(xs, ys[..|ys| - 1], ks);
    }
  }

  /** Filtering depends only on which keys are excluded. */
  lemma {:induction false} WithoutTwice(xs: seq<string>, ks: seq<string>, ms: seq<string>, all: seq<string>)
    requires forall k :: k in all <==> k in ks || k in ms
    ensures Without(Without(xs, ks), ms) == Without(xs, all)
  {
    if xs != [] {
      var x, init := xs[|xs| - 1], Without(xs[..|xs| - 1], ks);
      WithoutTwice(xs[..|xs| - 1], ks, ms, all);
      if x !in ks { assert (init + [x])[..|init|] == init; }
    }
  }

  lemma {:induction false} WithoutSelf(xs: seq<string>, ks: seq<string>)
    requires forall x | x in xs :: x in ks
    ensures Without(xs, ks) == []
  {
    if xs != [] {
      assert xs[|xs| - 1] in xs;
      WithoutSelf(xs[..|xs| - 1], ks);
    }
  }

  lemma {:induction false} FreshKeys(keys: seq<nat>, l: seq<Value>, ks: seq<string>)
    requires AllKeyed(keys, l)
    ensures AllKeyed(keys, Fresh(keys, l, ks))
    ensures KeysOf(keys, Fresh(keys, l, ks)) == Without(KeysOf(keys, l), ks)
    ensures forall v :: v in Fresh(keys, l, ks) <==> v in l && KeyOf(keys, v) !in ks
  {
    hide KeyOf, HasKey;
    if l != [] {
      var init := l[..|l| - 1];
      FreshKeys(keys, init, ks);
      assert l == init + [l[|l| - 1]];
      assert KeysOf(keys, l)[..|l| - 1] == KeysOf(keys, init);
    }
  }

  lemma KeysOfAppend(keys: seq<nat>, x: seq<Value>, y: seq<Value>)
    requires AllKeyed(keys, x) && AllKeyed(keys, y)
    ensures AllKeyed(keys, x + y) && KeysOf(keys, x + y) == KeysOf(keys, x) + KeysOf(keys, y)
  {
    hide KeyOf, HasKey;
  }

  // ---------------------------------------------------------------- merged lists

  /** Merging items with the same key keeps the key. */
  lemma MergeKeepsKey(keys: seq<nat>, elem: Schema, d: Value, s: Value)
    requires WellFormed(KeyedList(keys, elem))
    requires HasType(elem, d) && HasType(elem, s) && HasKey(keys, d) && HasKey(keys, s)
    requires KeyOf(keys, d) == KeyOf(keys, s)
    ensures HasKey(keys, Merge(elem, d, s)) && KeyOf(keys, Merge(elem, d, s)) == KeyOf(keys, d)
  {
    if elem.Struct? {
      JoinIsInjective(KeyParts(keys, d), KeyParts(keys, s));
      var m := Merge(elem, d, s);
      forall i | 0 <= i < |keys| ensures m.fields[keys[i]] == d.fields[keys[i]] {
        assert KeyParts(keys, d)[i] == KeyParts(keys, s)[i];
        assert m.fields[keys[i]] == Merge(elem.fields[keys[i]], d.fields[keys[i]], s.fields[keys[i]]);
      }
      assert KeyParts(keys, m) == KeyParts(keys, d);
    }
  }

  lemma MergeItemKeepsKey(keys: seq<nat>, elem: Schema, d: Value, src: seq<Value>)
    requires WellFormed(KeyedList(keys, elem))
    requires HasKey(keys, d) && HasType(elem, d) && ListTyped(keys, elem, src)
    ensures HasKey(keys, MergeItem(keys, elem, d, src)) && KeyOf(keys, MergeItem(keys, elem, d, src)) == KeyOf(keys, d)
  {
    hide KeyOf, HasKey, Merge, HasType, WellFormed;
    FindIsSound(KeysOf(keys, src), KeyOf(keys, d));
    match Find(KeysOf(keys, src), KeyOf(keys, d))
    case None =>
    case Some(j) =>
      assert KeysOf(keys, src)[j] == KeyOf(keys, src[j]);
      MergeKeepsKey(keys, elem, d, src[j]);
  }

  function Kept(keys: seq<nat>, elem: Schema, dst: seq<Value>, src: seq<Value>): seq<Value>
    requires ListTyped(keys, elem, dst) && ListTyped(keys, elem, src)
  {
    seq(|dst|, i requires 0 <= i < |dst| => MergeItem(keys, elem, dst[i], src))
  }

  lemma KeptKeys(keys: seq<nat>, elem: Schema, dst: seq<Value>, src: seq<Value>)
    requires WellFormed(KeyedList(keys, elem))
    requires ListTyped(keys, elem, dst) && ListTyped(keys, elem, src)
    ensures AllKeyed(keys, Kept(keys, elem, dst, src)) && KeysOf(keys, Kept(keys, elem, dst, src)) == KeysOf(keys, dst)
    ensures MergeList(keys, elem, dst, src) == Kept(keys, elem, dst, src) + Fresh(keys, src, KeysOf(keys, dst))
  {
    hide KeyOf, HasKey, HasType, WellFormed, MergeItem;
    forall i | 0 <= i < |dst|
      ensures HasKey(keys, MergeItem(keys, elem, dst[i], src))
                && KeyOf(keys, MergeItem(keys, elem, dst[i], src)) == KeyOf(keys, dst[i])
    {
      MergeItemKeepsKey(keys, elem, dst[i], src);
    }
  }

  /** Existing keys keep their positions, new keys follow in source order, and keys stay unique. */
  lemma MergedKeys(keys: seq<nat>, elem: Schema, dst: seq<Value>, src: seq<Value>)
    requires WellFormed(KeyedList(keys, elem))
    requires ListTyped(keys, elem, dst) && ListTyped(keys, elem, src)
    ensures var m := MergeList(keys, elem, dst, src);
            && AllKeyed(keys, m) && Unique(KeysOf(keys, m))
            && KeysOf(keys, m) == KeysOf(keys, dst) + Without(KeysOf(keys, src), KeysOf(keys, dst))
  {
    hide KeyOf, HasKey, HasType, WellFormed, MergeItem, MergeList, Kept;
    var ds, ss := KeysOf(keys, dst), KeysOf(keys, src);
    KeptKeys(keys, elem, dst, src);
    FreshKeys(keys, src, ds);
    KeysOfAppend(keys, Kept(keys, elem, dst, src), Fresh(keys, src, ds));
    WithoutIsUnique(ss, ds);
    var fresh' := Without(ss, ds);
    forall i | 0 <= i < |fresh'| ensures fresh'[i] !in ds {
      WithoutHolds(ss, ds, fresh'[i]);
    }
  }

  lemma AtIsTyped(keys: seq<nat>, elem: Schema, l: seq<Value>, k: string)
    requires ListTyped(keys, elem, l)
    ensures At(keys, l, k).Some? ==>
              HasType(elem, At(keys, l, k).value) && HasKey(keys, At(keys, l, k).value)
                && KeyOf(keys, At(keys, l, k).value) == k
  {
    hide KeyOf, HasKey, HasType;
    FindIsSound(KeysOf(keys, l), k);
  }

  function MergeOption(elem: Schema, d: Option<Value>, s: Option<Value>): Option<Value>
    requires d.Some? ==> HasType(elem, d.value)
    requires s.Some? ==> HasType(elem, s.value)
  {
    if d.None? then s else if s.None? then d else Some(Merge(elem, d.value, s.value))
  }

  /** What the merged list holds under a key. */
  lemma MergedAt(keys: seq<nat>, elem: Schema, dst: seq<Value>, src: seq<Value>, k: string)
    requires WellFormed(KeyedList(keys, elem))
    requires ListTyped(keys, elem, dst) && ListTyped(keys, elem, src)
    ensures AllKeyed(keys, MergeList(keys, elem, dst, src))
    ensures (AtIsTyped(keys, elem, dst, k); AtIsTyped(keys, elem, src, k);
             At(keys, MergeList(keys, elem, dst, src), k) == MergeOption(elem, At(keys, dst, k), At(keys, src, k)))
  {
    hide KeyOf, HasKey, HasType, WellFormed, Merge;
    var m := MergeList(keys, elem, dst, src);
    var ds, ss := KeysOf(keys, dst), KeysOf(keys, src);
    MergedKeys(keys, elem, dst, src);
    KeptKeys(keys, elem, dst, src);
    FreshKeys(keys, src, ds);
    WithoutHolds(ss, ds, k);
    AtNone(keys, dst, k);
    AtNone(keys, src, k);
    AtNone(keys, m, k);
    AtIsTyped(keys, elem, dst, k);
    AtIsTyped(keys, elem, src, k);
    if k in ds {
      var i :| 0 <= i < |ds| && ds[i] == k;
      AtIndex(keys, dst, i);
      MergedInPlace(keys, elem, dst, src, i);
    } else if k in ss {
      var v := At(keys, src, k).value;
      assert v in src by { FindIsSound(ss, k); }
      var f := Fresh(keys, src, ds);
      assert v in f;
      var j :| 0 <= j < |f| && f[j] == v;
      AtIndex(keys, m, |dst| + j);
    }
  }

  lemma MergedInPlace(keys: seq<nat>, elem: Schema, dst: seq<Value>, src: seq<Value>, i: nat)
    requires WellFormed(KeyedList(keys, elem))
    requires ListTyped(keys, elem, dst) && ListTyped(keys, elem, src) && i < |dst|
    ensures AllKeyed(keys, MergeList(keys, elem, dst, src))
    ensures (AtIsTyped(keys, elem, src, KeyOf(keys, dst[i]));
             At(keys, MergeList(keys, elem, dst, src), KeyOf(keys, dst[i])) ==
             MergeOption(elem, Some(dst[i]), At(keys, src, KeyOf(keys, dst[i]))))
  {
    hide KeyOf, HasKey, HasType, WellFormed, Merge;
    var m := MergeList(keys, elem, dst, src);
    MergedKeys(keys, elem, dst, src);
    MergeItemKeepsKey(keys, elem, dst[i], src);
    AtIsTyped(keys, elem, src, KeyOf(keys, dst[i]));
    assert m[i] == MergeItem(keys, elem, dst[i], src);
    AtIndex(keys, m, i);
  }

  // ---------------------------------------------------------------- closure

  lemma {:induction false} MergeIsTyped(s: Schema, a: Value, b: Value)
    requires WellFormed(s) && HasType(s, a) && HasType(s, b)
    ensures HasType(s, Merge(s, a, b))
    decreases s, 0
  {
    match s
    case Scalar(_) =>
    case Atomic =>
    case AtomicList =>
    case AtomicMap =>
    case Nilable(elem) => if a.Ptr? && b.Ptr? { MergeIsTyped(elem, a.value, b.value); }
    case MapOf(elem) =>
      forall k | k in a.entries && k in b.entries ensures HasType(elem, Merge(elem, a.entries[k], b.entries[k])) {
        MergeIsTyped(elem, a.entries[k], b.entries[k]);
      }
    case KeyedList(keys, elem) => MergedListIsTyped(keys, elem, a.items, b.items);
    case Struct(fields) =>
      forall i | 0 <= i < |fields| ensures HasType(fields[i], Merge(fields[i], a.fields[i], b.fields[i])) {
        MergeIsTyped(fields[i], a.fields[i], b.fields[i]);
      }
  }

  lemma {:induction false} MergedListIsTyped(keys: seq<nat>, elem: Schema, a: seq<Value>, b: seq<Value>)
    requires WellFormed(KeyedList(keys, elem)) && ListTyped(keys, elem, a) && ListTyped(keys, elem, b)
    ensures ListTyped(keys, elem, MergeList(keys, elem, a, b))
    decreases elem, 1
  {
    hide KeyOf, HasKey, HasType, Merge;
    var m := MergeList(keys, elem, a, b);
    MergedKeys(keys, elem, a, b);
    FreshKeys(keys, b, KeysOf(keys, a));
    forall i | 0 <= i < |m| ensures HasType(elem, m[i]) {
      if i < |a| {
        FindIsSound(KeysOf(keys, b), KeyOf(keys, a[i]));
        var found := Find(KeysOf(keys, b), KeyOf(keys, a[i]));
        if found.Some? { MergeIsTyped(elem, a[i], b[found.value]); }
      } else {
        assert m[i] in Fresh(keys, b, KeysOf(keys, a));
      }
    }
  }

  // ---------------------------------------------------------------- associativity

  ghost predicate Associates(s: Schema, a: Value, b: Value, c: Value)
    requires WellFormed(s) && HasType(s, a) && HasType(s, b) && HasType(s, c)
  {
    MergeIsTyped(s, a, b);
    MergeIsTyped(s, b, c);
    Merge(s, Merge(s, a, b), c) == Merge(s, a, Merge(s, b, c))
  }

  /** Overlaying step by step is overlaying with the merged overlay. */
  lemma {:induction false} MergeIsAssociative(s: Schema, a: Value, b: Value, c: Value)
    requires WellFormed(s) && HasType(s, a) && HasType(s, b) && HasType(s, c)
    ensures Associates(s, a, b, c)
    decreases s, 0
  {
    MergeIsTyped(s, a, b);
    MergeIsTyped(s, b, c);
    match s
    case Scalar(_) =>
    case Atomic =>
    case AtomicList =>
    case AtomicMap =>
    case Nilable(elem) => if a.Ptr? && b.Ptr? && c.Ptr? { MergeIsAssociative(elem, a.value, b.value, c.value); }
    case MapOf(elem) => MapsAssociate(elem, a, b, c);
    case KeyedList(keys, elem) => ListsAssociate(keys, elem, a.items, b.items, c.items);
    case Struct(fields) =>
      forall i | 0 <= i < |fields| ensures Associates(fields[i], a.fields[i], b.fields[i], c.fields[i]) {
        MergeIsAssociative(fields[i], a.fields[i], b.fields[i], c.fields[i]);
      }
      StructsAssociate(fields, a, b, c);
  }

  function Lookup(m: map<string, Value>, k: string): Option<Value> { if k in m then Some(m[k]) else None }

  lemma MergedEntry(elem: Schema, a: Value, b: Value, k: string)
    requires HasType(MapOf(elem), a) && HasType(MapOf(elem), b)
    ensures Merge(MapOf(elem), a, b).Dict?
    ensures Lookup(Merge(MapOf(elem), a, b).entries, k) == MergeOption(elem, Lookup(a.entries, k), Lookup(b.entries, k))
  {
  }

  lemma EntriesExtensional(l: map<string, Value>, r: map<string, Value>)
    requires forall k :: Lookup(l, k) == Lookup(r, k)
    ensures l == r
  {
    assert forall k :: k in l <==> Lookup(l, k).Some?;
    assert forall k :: k in r <==> Lookup(r, k).Some?;
    assert l.Keys == r.Keys;
    assert forall k | k in l :: Lookup(l, k) == Some(l[k]) && Lookup(r, k) == Some(r[k]);
  }

  lemma MergeOptionIsTyped(elem: Schema, d: Option<Value>, s: Option<Value>)
    requires WellFormed(elem) && (d.Some? ==> HasType(elem, d.value)) && (s.Some? ==> HasType(elem, s.value))
    ensures MergeOption(elem, d, s).Some? ==> HasType(elem, MergeOption(elem, d, s).value)
  {
    if d.Some? && s.Some? { MergeIsTyped(elem, d.value, s.value); }
  }

  ghost predicate OptionsAssociate(elem: Schema, x: Option<Value>, y: Option<Value>, z: Option<Value>)
    requires WellFormed(elem) && (x.Some? ==> HasType(elem, x.value))
    requires (y.Some? ==> HasType(elem, y.value)) && (z.Some? ==> HasType(elem, z.value))
  {
    MergeOptionIsTyped(elem, x, y);
    MergeOptionIsTyped(elem, y, z);
    MergeOption(elem, MergeOption(elem, x, y), z) == MergeOption(elem, x, MergeOption(elem, y, z))
  }

  lemma {:induction false} LookupsAssociate(elem: Schema, a: Value, b: Value, c: Value, k: string)
    requires WellFormed(MapOf(elem)) && HasType(MapOf(elem), a) && HasType(MapOf(elem), b) && HasType(MapOf(elem), c)
    ensures OptionsAssociate(elem, Lookup(a.entries, k), Lookup(b.entries, k), Lookup(c.entries, k))
    decreases elem, 1
  {
    if k in a.entries && k in b.entries && k in c.entries {
      MergeIsAssociative(elem, a.entries[k], b.entries[k], c.entries[k]);
    }
  }

  lemma {:induction false} EntriesAssociate(elem: Schema, a: Value, b: Value, c: Value, k: string)
    requires WellFormed(MapOf(elem)) && HasType(MapOf(elem), a) && HasType(MapOf(elem), b) && HasType(MapOf(elem), c)
    ensures (MergeIsTyped(MapOf(elem), a, b); MergeIsTyped(MapOf(elem), b, c);
             var s := MapOf(elem);
             var l, r := Merge(s, Merge(s, a, b), c), Merge(s, a, Merge(s, b, c));
             l.Dict? && r.Dict? && Lookup(l.entries, k) == Lookup(r.entries, k))
    decreases elem, 2
  {
    LookupsAssociate(elem, a, b, c, k);
    hide Merge, MergeOption, HasType, WellFormed, Lookup;
    var s := MapOf(elem);
    MergeIsTyped(s, a, b);
    MergeIsTyped(s, b, c);
    var ab, bc := Merge(s, a, b), Merge(s, b, c);
    MergedEntry(elem, a, b, k);
    MergedEntry(elem, b, c, k);
    MergedEntry(elem, ab, c, k);
    MergedEntry(elem, a, bc, k);
  }

  lemma {:induction false} MapsAssociate(elem: Schema, a: Value, b: Value, c: Value)
    requires WellFormed(MapOf(elem)) && HasType(MapOf(elem), a) && HasType(MapOf(elem), b) && HasType(MapOf(elem), c)
    ensures Associates(MapOf(elem), a, b, c)
    decreases elem, 3
  {
    hide Merge, HasType, WellFormed, Lookup;
    var s := MapOf(elem);
    MergeIsTyped(s, a, b);
    MergeIsTyped(s, b, c);
    var l, r := Merge(s, Merge(s, a, b), c), Merge(s, a, Merge(s, b, c));
    EntriesAssociate(elem, a, b, c, "");
    forall k ensures Lookup(l.entries, k) == Lookup(r.entries, k) {
      EntriesAssociate(elem, a, b, c, k);
    }
    EntriesExtensional(l.entries, r.entries);
  }

  lemma StructsAssociate(fields: seq<Schema>, a: Value, b: Value, c: Value)
    requires WellFormed(Struct(fields)) && HasType(Struct(fields), a) && HasType(Struct(fields), b)
               && HasType(Struct(fields), c)
    requires forall i | 0 <= i < |fields| :: Associates(fields[i], a.fields[i], b.fields[i], c.fields[i])
    ensures Associates(Struct(fields), a, b, c)
  {
    var s := Struct(fields);
    MergeIsTyped(s, a, b);
    MergeIsTyped(s, b, c);
    var l, r := Merge(s, Merge(s, a, b), c), Merge(s, a, Merge(s, b, c));
    forall i | 0 <= i < |fields| ensures l.fields[i] == r.fields[i] {
      assert Associates(fields[i], a.fields[i], b.fields[i], c.fields[i]);
    }
  }

  lemma {:induction false} ListsAssociate(keys: seq<nat>, elem: Schema, a: seq<Value>, b: seq<Value>, c: seq<Value>)
    requires WellFormed(KeyedList(keys, elem))
    requires ListTyped(keys, elem, a) && ListTyped(keys, elem, b) && ListTyped(keys, elem, c)
    ensures (MergedListIsTyped(keys, elem, a, b); MergedListIsTyped(keys, elem, b, c);
             MergeList(keys, elem, MergeList(keys, elem, a, b), c) ==
               MergeList(keys, elem, a, MergeList(keys, elem, b, c)))
    decreases elem, 1
  {
    hide KeyOf, HasKey, HasType, Merge, MergeList, At;
    MergedListIsTyped(keys, elem, a, b);
    MergedListIsTyped(keys, elem, b, c);
    var ab, bc := MergeList(keys, elem, a, b), MergeList(keys, elem, b, c);
    var l, r := MergeList(keys, elem, ab, c), MergeList(keys, elem, a, bc);
    MergedKeys(keys, elem, ab, c);
    MergedKeys(keys, elem, a, bc);
    MergedKeysAssociate(keys, elem, a, b, c);
    forall k | k in KeysOf(keys, l) ensures At(keys, l, k) == At(keys, r, k) {
      MergedAt(keys, elem, a, b, k);
      MergedAt(keys, elem, b, c, k);
      MergedAt(keys, elem, ab, c, k);
      MergedAt(keys, elem, a, bc, k);
      AtIsTyped(keys, elem, a, k);
      AtIsTyped(keys, elem, b, k);
      AtIsTyped(keys, elem, c, k);
      var x, y, z := At(keys, a, k), At(keys, b, k), At(keys, c, k);
      if x.Some? && y.Some? && z.Some? { MergeIsAssociative(elem, x.value, y.value, z.value); }
    }
    ListExtensional(keys, l, r);
  }

  lemma MergedKeysAssociate(keys: seq<nat>, elem: Schema, a: seq<Value>, b: seq<Value>, c: seq<Value>)
    requires WellFormed(KeyedList(keys, elem))
    requires ListTyped(keys, elem, a) && ListTyped(keys, elem, b) && ListTyped(keys, elem, c)
    ensures (MergedListIsTyped(keys, elem, a, b); MergedListIsTyped(keys, elem, b, c);
             KeysOf(keys, MergeList(keys, elem, a, b))
               + Without(KeysOf(keys, c), KeysOf(keys, MergeList(keys, elem, a, b)))
             == KeysOf(keys, a) + Without(KeysOf(keys, MergeList(keys, elem, b, c)), KeysOf(keys, a)))
  {
    hide KeyOf, HasKey, HasType, Merge, MergeList, WellFormed, KeysOf, Without;
    MergedListIsTyped(keys, elem, a, b);
    MergedListIsTyped(keys, elem, b, c);
    MergedKeys(keys, elem, a, b);
    MergedKeys(keys, elem, b, c);
    var x, y, z := KeysOf(keys, a), KeysOf(keys, b), KeysOf(keys, c);
    var xy := x + Without(y, x);
    forall k ensures k in xy <==> k in y || k in x {
      WithoutHolds(y, x, k);
    }
    WithoutTwice(z, y, x, xy);
    WithoutAppend(y, Without(z, y), x);
    assert xy + Without(z, xy) == x + (Without(y, x) + Without(z, xy));
  }

  // ---------------------------------------------------------------- idempotence

  lemma {:induction false} MergeIsIdempotent(s: Schema, a: Value)
    requires WellFormed(s) && HasType(s, a)
    ensures Merge(s, a, a) == a
    decreases s, 0
  {
    match s
    case Scalar(_) =>
    case Atomic =>
    case AtomicList =>
    case AtomicMap =>
    case Nilable(elem) => if a.Ptr? { MergeIsIdempotent(elem, a.value); }
    case MapOf(elem) =>
      forall k | k in a.entries ensures Merge(elem, a.entries[k], a.entries[k]) == a.entries[k] {
        MergeIsIdempotent(elem, a.entries[k]);
      }
    case KeyedList(keys, elem) => MergeListIsIdempotent(keys, elem, a.items);
    case Struct(fields) =>
      forall i | 0 <= i < |fields| ensures Merge(fields[i], a.fields[i], a.fields[i]) == a.fields[i] {
        MergeIsIdempotent(fields[i], a.fields[i]);
      }
  }

  lemma {:induction false} MergeListIsIdempotent(keys: seq<nat>, elem: Schema, a: seq<Value>)
    requires WellFormed(KeyedList(keys, elem)) && ListTyped(keys, elem, a)
    ensures MergeList(keys, elem, a, a) == a
    decreases elem, 1
  {
    hide KeyOf, HasKey, HasType, Merge, MergeList, At;
    var ks := KeysOf(keys, a);
    MergedKeys(keys, elem, a, a);
    WithoutSelf(ks, ks);
    forall k | k in ks ensures At(keys, MergeList(keys, elem, a, a), k) == At(keys, a, k) {
      MergedAt(keys, elem, a, a, k);
      AtIsTyped(keys, elem, a, k);
      var x := At(keys, a, k);
      if x.Some? { MergeIsIdempotent(elem, x.value); }
    }
    ListExtensional(keys, MergeList(keys, elem, a, a), a);
  }

  /** Applying the same overlay again changes nothing. */
  lemma ReapplyingIsNoChange(s: Schema, a: Value, b: Value)
    requires WellFormed(s) && HasType(s, a) && HasType(s, b)
    ensures (MergeIsTyped(s, a, b); Merge(s, Merge(s, a, b), b) == Merge(s, a, b))
  {
    hide Merge, HasType, WellFormed;
    MergeIsTyped(s, a, b);
    MergeIsAssociative(s, a, b, b);
    MergeIsIdempotent(s, b);
  }

  // ---------------------------------------------------------------- empty overlays

  /** The value of a field that was never set. */
  function Zero(s: Schema): (v: Value)
    ensures HasType(s, v)
  {
    match s
    case Scalar(zero) => Text(zero)
    case Atomic => Text("")
    case AtomicList => List([])
    case AtomicMap => Dict(map[])
    case Nilable(_) => Nil
    case MapOf(_) => Dict(map[])
    case KeyedList(_, _) => List([])
    case Struct(fields) => Record(seq(|fields|, i requires 0 <= i < |fields| => Zero(fields[i])))
  }

  lemma {:induction false} FreshOfAll(keys: seq<nat>, l: seq<Value>)
    requires AllKeyed(keys, l)
    ensures Fresh(keys, l, []) == l
  {
    if l != [] { FreshOfAll(keys, l[..|l| - 1]); }
  }

  /** Overlaying on nothing gives the overlay. */
  lemma {:induction false} EmptyBase(s: Schema, a: Value)
    requires HasType(s, a)
    ensures Merge(s, Zero(s), a) == a
  {
    match s
    case Scalar(_) =>
    case Atomic =>
    case AtomicList =>
    case AtomicMap =>
    case Nilable(_) =>
    case MapOf(_) =>
    case KeyedList(keys, elem) =>
      assert KeysOf(keys, []) == [];
      FreshOfAll(keys, a.items);
    case Struct(fields) =>
      forall i | 0 <= i < |fields| ensures Merge(fields[i], Zero(fields[i]), a.fields[i]) == a.fields[i] {
        EmptyBase(fields[i], a.fields[i]);
      }
  }

  /** No struct replaced as a whole sits directly in the value, outside pointers and collections. */
  predicate NoBareAtomic(s: Schema)
  {
    match s
    case Atomic => false
    case Struct(fields) => forall f | f in fields :: NoBareAtomic(f)
    case _ => true
  }

  lemma {:induction false} EmptyOverlayKeeps(s: Schema, a: Value)
    requires HasType(s, a) && NoBareAtomic(s)
    ensures Merge(s, a, Zero(s)) == a
  {
    match s
    case Scalar(_) =>
    case AtomicList =>
    case AtomicMap =>
    case Nilable(_) =>
    case MapOf(_) =>
    case KeyedList(keys, elem) =>
      assert KeysOf(keys, []) == [];
      forall i | 0 <= i < |a.items| ensures MergeItem(keys, elem, a.items[i], []) == a.items[i] {
      }
      assert MergeList(keys, elem, a.items, []) == a.items;
    case Struct(fields) =>
      forall i | 0 <= i < |fields| ensures Merge(fields[i], a.fields[i], Zero(fields[i])) == a.fields[i] {
        assert fields[i] in fields;
        EmptyOverlayKeeps(fields[i], a.fields[i]);
      }
  }

  lemma {:induction false} EmptyOverlayErases(s: Schema) returns (a: Value)
    requires !NoBareAtomic(s)
    ensures HasType(s, a) && Merge(s, a, Zero(s)) != a
  {
    match s
    case Atomic => a := Text("x");
    case Struct(fields) =>
      var f :| f in fields && !NoBareAtomic(f);
      var j :| 0 <= j < |fields| && fields[j] == f;
      var x := EmptyOverlayErases(f);
      a := Record(seq(|fields|, i requires 0 <= i < |fields| => if i == j then x else Zero(fields[i])));
      assert Merge(s, a, Zero(s)).fields[j] == Merge(f, x, Zero(f));
  }

  /** An overlay that sets nothing changes nothing, exactly where no struct that is replaced as a
      whole sits directly in the overlaid value. */
  lemma EmptyOverlayExactly(s: Schema)
    ensures (forall a | HasType(s, a) :: Merge(s, a, Zero(s)) == a) <==> NoBareAtomic(s)
  {
    if NoBareAtomic(s) {
      forall a | HasType(s, a) ensures Merge(s, a, Zero(s)) == a { EmptyOverlayKeeps(s, a); }
    } else {
      var a := EmptyOverlayErases(s);
    }
  }

  /** The config map volume source: a bare object reference, items, a mode and a flag. */
  const CONFIG_MAP_SOURCE := Struct([Atomic, Nilable(AtomicList), Nilable(Scalar("0")), Nilable(Scalar("false"))])

  /** Overlaying only the mode of a config map volume erases the name of its config map. */
  lemma ConfigMapNameIsErased(name: Value)
    requires name != Zero(Atomic)
    ensures HasType(CONFIG_MAP_SOURCE, Record([name, Nil, Nil, Nil]))
    ensures HasType(CONFIG_MAP_SOURCE, Record([Zero(Atomic), Nil, Ptr(Text("420")), Nil]))
    ensures Merge(CONFIG_MAP_SOURCE, Record([name, Nil, Nil, Nil]),
                  Record([Zero(Atomic), Nil, Ptr(Text("420")), Nil])).fields[0]
         != name
  {
    assert HasType(Scalar("0"), Text("420"));
    assert HasType(Nilable(Scalar("0")), Ptr(Text("420")));
  }
}
