/** The overlay functions as the generated code runs them, on any lists, and their agreement with the
    merge where keys are unique and hold no comma. */
module OverlayCode {
  import opened Wrappers
  import opened Overlay

  // ---------------------------------------------------------------- what the code computes

  /** The Go types alone: nothing is said about the keys of list items. */
  predicate Shaped(s: Schema, v: Value)
  {
    match s
    case Scalar(_) => v.Text?
    case Atomic => true
    case AtomicList => v.List?
    case AtomicMap => v.Dict?
    case Nilable(elem) => v.Nil? || (v.Ptr? && Shaped(elem, v.value))
    case MapOf(elem) => v.Dict? && forall k | k in v.entries :: Shaped(elem, v.entries[k])
    case KeyedList(keys, elem) =>
      v.List? && forall i | 0 <= i < |v.items| :: HasRawKey(keys, v.items[i]) && Shaped(elem, v.items[i])
    case Struct(fields) =>
      v.Record? && |v.fields| == |fields| && forall i | 0 <= i < |fields| :: Shaped(fields[i], v.fields[i])
  }

  predicate RawList(keys: seq<nat>, elem: Schema, l: seq<Value>)
  {
    forall i | 0 <= i < |l| :: HasRawKey(keys, l[i]) && Shaped(elem, l[i])
  }

  function RawKeys(keys: seq<nat>, elem: Schema, l: seq<Value>): seq<string>
    requires RawList(keys, elem, l)
  {
    seq(|l|, i requires 0 <= i < |l| => RawKey(keys, l[i]))
  }

  /** Where `k` is last found. */
  function LastIndex(ks: seq<string>, k: string): (i: Option<nat>)
    ensures i.Some? ==> i.value < |ks| && ks[i.value] == k
    ensures i.None? ==> k !in ks
  {
    if ks == [] then None
    else if ks[|ks| - 1] == k then Some(|ks| - 1)
    else LastIndex(ks[..|ks| - 1], k)
  }

  lemma KeyOfStruct(keys: seq<nat>, elem: Schema, v: Value)
    requires WellFormed(KeyedList(keys, elem)) && elem.Struct? && Shaped(elem, v)
    ensures HasRawKey(keys, v)
  {
  }

  function Laid(s: Schema, dst: Value, src: Value): (r: Value)
    requires WellFormed(s) && Shaped(s, dst) && Shaped(s, src)
    ensures Shaped(s, r)
    decreases s, 0
  {
    match s
    case Scalar(zero) => if src.text == zero then dst else src
    case Atomic => src
    case AtomicList => if src.items == [] then dst else src
    case AtomicMap => if src.entries == map[] then dst else src
    case Nilable(elem) =>
      if dst.Nil? then src else if src.Nil? then dst else Ptr(Laid(elem, dst.value, src.value))
    case MapOf(elem) =>
      Dict(map k | k in dst.entries.Keys + src.entries.Keys ::
             if k !in dst.entries then src.entries[k]
             else if k !in src.entries then dst.entries[k]
             else Laid(elem, dst.entries[k], src.entries[k]))
    case KeyedList(keys, elem) => List(LaidList(keys, elem, dst.items, src.items))
    case Struct(fields) =>
      Record(seq(|fields|, i requires 0 <= i < |fields| => Laid(fields[i], dst.fields[i], src.fields[i])))
  }

  /** Source items in turn: each goes on the last destination item with its key, or to the end if no
      destination item has its key. */
  function LaidList(keys: seq<nat>, elem: Schema, dst: seq<Value>, src: seq<Value>): (r: seq<Value>)
    requires WellFormed(KeyedList(keys, elem)) && RawList(keys, elem, dst) && RawList(keys, elem, src)
    ensures RawList(keys, elem, r) && |dst| <= |r|
    decreases elem, 1, |src|
  {
    if src == [] then dst
    else
      var item, r := src[|src| - 1], LaidList(keys, elem, dst, src[..|src| - 1]);
      match LastIndex(RawKeys(keys, elem, dst), RawKey(keys, item))
      case None => r + [item]
      case Some(d) =>
        var laid := Laid(elem, r[d], item);
        assert HasRawKey(keys, laid) by { if elem.Struct? { KeyOfStruct(keys, elem, laid); } }
        r[d := laid]
  }

  // ---------------------------------------------------------------- the code

  /** The positions of the destination's items by key, then one pass over the source. */
  method OverlayMapList(keys: seq<nat>, elem: Schema, dst: seq<Value>, src: seq<Value>) returns (r: seq<Value>)
    requires WellFormed(KeyedList(keys, elem)) && RawList(keys, elem, dst) && RawList(keys, elem, src)
    ensures r == LaidList(keys, elem, dst, src)
    decreases elem, 1
  {
    hide RawKey, HasRawKey, Shaped, Laid;
    var m: map<string, nat> := map[];
    ghost var ks := RawKeys(keys, elem, dst);
    for i := 0 to |dst|
      invariant forall k :: LastIndex(ks[..i], k) == if k in m then Some(m[k]) else None
    {
      assert ks[..i + 1][..i] == ks[..i] && ks[..i + 1][i] == RawKey(keys, dst[i]);
      m := m[RawKey(keys, dst[i]) := i];
    }
    assert ks[..|dst|] == ks;
    r := dst;
    for si := 0 to |src|
      invariant r == LaidList(keys, elem, dst, src[..si])
    {
      assert src[..si + 1][..si] == src[..si];
      var key := RawKey(keys, src[si]);
      if key !in m {
        assert LastIndex(ks, key).None?;
        r := r + [src[si]];
        continue;
      }
      var di := m[key];
      assert LastIndex(ks, key) == Some(di);
      var item := OverlayValue(elem, r[di], src[si]);
      r := r[di := item];
    }
    assert src[..|src|] == src;
  }

  /** A granular map: missing keys are copied, shared keys overlaid, in any order. */
  method OverlayMap(elem: Schema, dst: map<string, Value>, src: map<string, Value>) returns (r: map<string, Value>)
    requires WellFormed(elem)
    requires forall k | k in dst :: Shaped(elem, dst[k])
    requires forall k | k in src :: Shaped(elem, src[k])
    ensures r.Keys == dst.Keys + src.Keys
    ensures forall k | k in r ::
              r[k] == if k !in dst then src[k] else if k !in src then dst[k] else Laid(elem, dst[k], src[k])
    decreases elem, 1
  {
    hide Shaped, Laid, WellFormed;
    r := dst;
    var left := src.Keys;
    while left != {}
      invariant left <= src.Keys
      invariant r.Keys == dst.Keys + (src.Keys - left)
      invariant forall k | k in r ::
                  r[k] == if k !in dst then src[k]
                          else if k !in src || k in left then dst[k]
                          else Laid(elem, dst[k], src[k])
    {
      var k :| k in left;
      left := left - {k};
      if k !in r {
        r := r[k := src[k]];
      } else {
        var v := OverlayValue(elem, r[k], src[k]);
        r := r[k := v];
      }
    }
  }

  lemma LaidEntry(elem: Schema, a: Value, b: Value, k: string)
    requires WellFormed(MapOf(elem)) && Shaped(MapOf(elem), a) && Shaped(MapOf(elem), b)
    ensures Laid(MapOf(elem), a, b).Dict?
    ensures k in Laid(MapOf(elem), a, b).entries <==> k in a.entries || k in b.entries
    ensures k in Laid(MapOf(elem), a, b).entries ==>
              Laid(MapOf(elem), a, b).entries[k] ==
                if k !in a.entries then b.entries[k] else if k !in b.entries then a.entries[k]
                else Laid(elem, a.entries[k], b.entries[k])
  {
  }

  lemma LaidEntries(elem: Schema, dst: Value, src: Value, r: map<string, Value>)
    requires WellFormed(MapOf(elem)) && Shaped(MapOf(elem), dst) && Shaped(MapOf(elem), src)
    requires r.Keys == dst.entries.Keys + src.entries.Keys
    requires forall k | k in r ::
               r[k] == if k !in dst.entries then src.entries[k] else if k !in src.entries then dst.entries[k]
                       else Laid(elem, dst.entries[k], src.entries[k])
    ensures Laid(MapOf(elem), dst, src) == Dict(r)
  {
    hide Laid;
    var laid := Laid(MapOf(elem), dst, src);
    LaidEntry(elem, dst, src, "");
    forall k ensures Lookup(laid.entries, k) == Lookup(r, k) {
      LaidEntry(elem, dst, src, k);
    }
    EntriesExtensional(laid.entries, r);
  }

  /** The fields of a struct in turn. */
  method OverlayFields(fields: seq<Schema>, dst: seq<Value>, src: seq<Value>) returns (r: seq<Value>)
    requires |dst| == |src| == |fields|
    requires forall i | 0 <= i < |fields| ::
               WellFormed(fields[i]) && Shaped(fields[i], dst[i]) && Shaped(fields[i], src[i])
    ensures |r| == |fields|
    ensures forall i | 0 <= i < |fields| :: r[i] == Laid(fields[i], dst[i], src[i])
    decreases fields, 1
  {
    hide Shaped, Laid, WellFormed;
    r := dst;
    for i := 0 to |fields|
      invariant |r| == |fields|
      invariant forall j | 0 <= j < i :: r[j] == Laid(fields[j], dst[j], src[j])
      invariant forall j | i <= j < |fields| :: r[j] == dst[j]
    {
      var v := OverlayValue(fields[i], r[i], src[i]);
      r := r[i := v];
    }
  }

  /** Overlays `src` on `dst`. */
  method OverlayValue(s: Schema, dst: Value, src: Value) returns (r: Value)
    requires WellFormed(s) && Shaped(s, dst) && Shaped(s, src)
    ensures r == Laid(s, dst, src)
    ensures s.Scalar? && src != Text(s.zero) ==> r == src
    ensures (s.AtomicList? && src.items != []) || (s.AtomicMap? && src.entries != map[]) || s.Atomic? ==> r == src
    decreases s, 0
  {
    match s
    case Scalar(zero) =>
      r := dst;
      if src.text != zero { r := src; }
    case Atomic => r := src;
    case AtomicList =>
      if |src.items| == 0 { return dst; }
      r := src;
    case AtomicMap =>
      if |src.entries| == 0 { return dst; }
      r := src;
    case Nilable(elem) =>
      r := dst;
      if dst.Ptr? && src.Ptr? {
        var v := OverlayValue(elem, dst.value, src.value);
        r := Ptr(v);
      } else if dst.Nil? {
        r := src;
      }
    case MapOf(elem) =>
      var entries := OverlayMap(elem, dst.entries, src.entries);
      LaidEntries(elem, dst, src, entries);
      r := Dict(entries);
    case KeyedList(keys, elem) =>
      var items := OverlayMapList(keys, elem, dst.items, src.items);
      r := List(items);
    case Struct(fields) =>
      assert forall i | 0 <= i < |fields| :: fields[i] in fields;
      var values := OverlayFields(fields, dst.fields, src.fields);
      r := Record(values);
  }

  // ---------------------------------------------------------------- the merge, one source item at a time

  lemma PrefixIsTyped(keys: seq<nat>, elem: Schema, l: seq<Value>, n: nat)
    requires ListTyped(keys, elem, l) && n <= |l|
    ensures ListTyped(keys, elem, l[..n])
    ensures KeysOf(keys, l[..n]) == KeysOf(keys, l)[..n]
  {
    hide KeyOf, HasKey, HasType;
    var ks := KeysOf(keys, l);
    assert KeysOf(keys, l[..n]) == ks[..n];
    assert forall i, j | 0 <= i < j < n :: ks[i] != ks[j];
  }

  lemma {:induction false} FindSnoc(ks: seq<string>, x: string, k: string)
    ensures Find(ks + [x], k) == if k in ks then Find(ks, k) else if x == k then Some(|ks|) else None
  {
    if ks == [] {
      assert ks + [x] == [x];
    } else {
      assert (ks + [x])[1..] == ks[1..] + [x];
      assert ks == [ks[0]] + ks[1..];
      FindSnoc(ks[1..], x, k);
      FindIsSound(ks[1..], k);
    }
  }

  /** What one more source item does to an item of the destination. */
  lemma MergeItemSnoc(keys: seq<nat>, elem: Schema, item: Value, src: seq<Value>, n: nat)
    requires HasKey(keys, item) && HasType(elem, item) && ListTyped(keys, elem, src) && n < |src|
    ensures ListTyped(keys, elem, src[..n]) && ListTyped(keys, elem, src[..n + 1])
    ensures KeyOf(keys, src[n]) == KeyOf(keys, item) ==>
              && MergeItem(keys, elem, item, src[..n]) == item
              && MergeItem(keys, elem, item, src[..n + 1]) == Merge(elem, item, src[n])
    ensures KeyOf(keys, src[n]) != KeyOf(keys, item) ==>
              MergeItem(keys, elem, item, src[..n + 1]) == MergeItem(keys, elem, item, src[..n])
  {
    hide KeyOf, HasKey, HasType, Merge;
    var k, ks := KeyOf(keys, item), KeysOf(keys, src);
    PrefixIsTyped(keys, elem, src, n);
    PrefixIsTyped(keys, elem, src, n + 1);
    assert ks[n] == KeyOf(keys, src[n]);
    assert ks[..n + 1] == ks[..n] + [ks[n]];
    FindSnoc(ks[..n], ks[n], k);
    FindIsSound(ks[..n], k);
  }

  lemma FreshSnoc(keys: seq<nat>, src: seq<Value>, n: nat, ks: seq<string>)
    requires AllKeyed(keys, src) && n < |src|
    ensures Fresh(keys, src[..n + 1], ks)
         == if KeyOf(keys, src[n]) in ks then Fresh(keys, src[..n], ks) else Fresh(keys, src[..n], ks) + [src[n]]
  {
    hide KeyOf, HasKey;
    assert src[..n + 1][..n] == src[..n];
  }

  /** A source item with a new key goes to the end. */
  lemma MergeListAppends(keys: seq<nat>, elem: Schema, dst: seq<Value>, src: seq<Value>, n: nat)
    requires ListTyped(keys, elem, dst) && ListTyped(keys, elem, src) && n < |src|
    requires KeyOf(keys, src[n]) !in KeysOf(keys, dst)
    ensures ListTyped(keys, elem, src[..n]) && ListTyped(keys, elem, src[..n + 1])
    ensures MergeList(keys, elem, dst, src[..n + 1]) == MergeList(keys, elem, dst, src[..n]) + [src[n]]
  {
    hide KeyOf, HasKey, HasType, Merge, MergeItem, Fresh;
    PrefixIsTyped(keys, elem, src, n);
    PrefixIsTyped(keys, elem, src, n + 1);
    FreshSnoc(keys, src, n, KeysOf(keys, dst));
    forall i | 0 <= i < |dst|
      ensures MergeItem(keys, elem, dst[i], src[..n + 1]) == MergeItem(keys, elem, dst[i], src[..n])
    {
      assert KeysOf(keys, dst)[i] == KeyOf(keys, dst[i]);
      MergeItemSnoc(keys, elem, dst[i], src, n);
    }
  }

  lemma OtherItemsStay(keys: seq<nat>, elem: Schema, dst: seq<Value>, src: seq<Value>, n: nat, d: nat, i: nat)
    requires ListTyped(keys, elem, dst) && ListTyped(keys, elem, src) && n < |src|
    requires d < |dst| && KeyOf(keys, dst[d]) == KeyOf(keys, src[n])
    requires i < |dst| && i != d
    ensures ListTyped(keys, elem, src[..n]) && ListTyped(keys, elem, src[..n + 1])
    ensures MergeItem(keys, elem, dst[i], src[..n + 1]) == MergeItem(keys, elem, dst[i], src[..n])
  {
    hide KeyOf, HasKey, HasType, Merge, MergeItem;
    var ks := KeysOf(keys, dst);
    assert ks[i] == KeyOf(keys, dst[i]) && ks[d] == KeyOf(keys, dst[d]) && ks[i] != ks[d];
    MergeItemSnoc(keys, elem, dst[i], src, n);
  }

  /** A source item with the key of a destination item is overlaid on it, and on no other. */
  lemma MergeListOverlays(keys: seq<nat>, elem: Schema, dst: seq<Value>, src: seq<Value>, n: nat, d: nat)
    requires ListTyped(keys, elem, dst) && ListTyped(keys, elem, src) && n < |src|
    requires d < |dst| && KeyOf(keys, dst[d]) == KeyOf(keys, src[n])
    ensures ListTyped(keys, elem, src[..n]) && ListTyped(keys, elem, src[..n + 1])
    ensures MergeList(keys, elem, dst, src[..n])[d] == dst[d]
    ensures MergeList(keys, elem, dst, src[..n + 1])
         == MergeList(keys, elem, dst, src[..n])[d := Merge(elem, dst[d], src[n])]
  {
    hide KeyOf, HasKey, HasType, Merge, MergeItem, Fresh, Unique, MergeList;
    PrefixIsTyped(keys, elem, src, n);
    PrefixIsTyped(keys, elem, src, n + 1);
    var ks := KeysOf(keys, dst);
    assert ks[d] == KeyOf(keys, src[n]);
    FreshSnoc(keys, src, n, ks);
    MergeItemSnoc(keys, elem, dst[d], src, n);
    var before, after := MergeList(keys, elem, dst, src[..n]), MergeList(keys, elem, dst, src[..n + 1]);
    MergeListItems(keys, elem, dst, src[..n]);
    MergeListItems(keys, elem, dst, src[..n + 1]);
    forall i | 0 <= i < |dst| && i != d ensures after[i] == before[i] {
      OtherItemsStay(keys, elem, dst, src, n, d, i);
    }
    assert after == before[d := Merge(elem, dst[d], src[n])];
  }

  lemma MergeListItems(keys: seq<nat>, elem: Schema, dst: seq<Value>, src: seq<Value>)
    requires ListTyped(keys, elem, dst) && ListTyped(keys, elem, src)
    ensures var r, more := MergeList(keys, elem, dst, src), Fresh(keys, src, KeysOf(keys, dst));
            && |r| == |dst| + |more|
            && (forall i | 0 <= i < |dst| :: r[i] == MergeItem(keys, elem, dst[i], src))
            && (forall i | 0 <= i < |more| :: r[|dst| + i] == more[i])
            && (forall i | |dst| <= i < |r| :: r[i] == more[i - |dst|])
  {
    hide KeyOf, HasKey, HasType, Merge, MergeItem, Fresh, Unique;
  }

  lemma NothingMerged(keys: seq<nat>, elem: Schema, dst: seq<Value>)
    requires ListTyped(keys, elem, dst)
    ensures ListTyped(keys, elem, []) && MergeList(keys, elem, dst, []) == dst
  {
    hide KeyOf, HasKey, HasType, Merge;
    assert KeysOf(keys, []) == [];
    assert MergeList(keys, elem, dst, []) == dst;
  }

  // ---------------------------------------------------------------- agreement with the merge

  lemma {:induction false} TypedIsShaped(s: Schema, v: Value)
    requires HasType(s, v)
    ensures Shaped(s, v)
  {
    match s
    case Nilable(elem) => if v.Ptr? { TypedIsShaped(elem, v.value); }
    case MapOf(elem) =>
      forall k | k in v.entries ensures Shaped(elem, v.entries[k]) { TypedIsShaped(elem, v.entries[k]); }
    case KeyedList(keys, elem) =>
      forall i | 0 <= i < |v.items| ensures HasRawKey(keys, v.items[i]) && Shaped(elem, v.items[i]) {
        TypedIsShaped(elem, v.items[i]);
      }
    case Struct(fields) =>
      forall i | 0 <= i < |fields| ensures Shaped(fields[i], v.fields[i]) { TypedIsShaped(fields[i], v.fields[i]); }
    case _ =>
  }

  lemma ListTypedIsRaw(keys: seq<nat>, elem: Schema, l: seq<Value>)
    requires ListTyped(keys, elem, l)
    ensures RawList(keys, elem, l) && RawKeys(keys, elem, l) == KeysOf(keys, l)
  {
    hide HasType, Shaped, RawKey, HasRawKey;
    forall i | 0 <= i < |l| ensures HasRawKey(keys, l[i]) && Shaped(elem, l[i]) { TypedIsShaped(elem, l[i]); }
  }

  /** On values with unique keys that hold no comma, the code computes the merge. */
  lemma {:induction false} LaidIsMerged(s: Schema, a: Value, b: Value)
    requires WellFormed(s) && HasType(s, a) && HasType(s, b)
    ensures Shaped(s, a) && Shaped(s, b) && Laid(s, a, b) == Merge(s, a, b)
    decreases s, 0
  {
    TypedIsShaped(s, a);
    TypedIsShaped(s, b);
    match s
    case Nilable(elem) => if a.Ptr? && b.Ptr? { LaidIsMerged(elem, a.value, b.value); }
    case MapOf(elem) => LaidMapIsMerged(elem, a, b);
    case KeyedList(keys, elem) =>
      LaidListIsMerged(keys, elem, a.items, b.items, |b.items|);
      assert b.items[..|b.items|] == b.items;
    case Struct(fields) =>
      forall i | 0 <= i < |fields|
        ensures Laid(fields[i], a.fields[i], b.fields[i]) == Merge(fields[i], a.fields[i], b.fields[i])
      {
        assert fields[i] in fields;
        LaidIsMerged(fields[i], a.fields[i], b.fields[i]);
      }
    case _ =>
  }

  lemma {:induction false} LaidMapIsMerged(elem: Schema, a: Value, b: Value)
    requires WellFormed(MapOf(elem)) && HasType(MapOf(elem), a) && HasType(MapOf(elem), b)
    requires Shaped(MapOf(elem), a) && Shaped(MapOf(elem), b)
    ensures Laid(MapOf(elem), a, b) == Merge(MapOf(elem), a, b)
    decreases elem, 1
  {
    hide Laid, Merge;
    var l, m := Laid(MapOf(elem), a, b), Merge(MapOf(elem), a, b);
    LaidEntry(elem, a, b, "");
    MergedEntry(elem, a, b, "");
    forall k ensures Lookup(l.entries, k) == Lookup(m.entries, k) {
      LaidEntry(elem, a, b, k);
      MergedEntry(elem, a, b, k);
      if k in a.entries && k in b.entries { LaidIsMerged(elem, a.entries[k], b.entries[k]); }
    }
    EntriesExtensional(l.entries, m.entries);
  }

  lemma {:induction false} LaidListIsMerged(keys: seq<nat>, elem: Schema, dst: seq<Value>, src: seq<Value>, n: nat)
    requires WellFormed(KeyedList(keys, elem)) && ListTyped(keys, elem, dst) && ListTyped(keys, elem, src) && n <= |src|
    ensures RawList(keys, elem, dst) && RawList(keys, elem, src[..n]) && ListTyped(keys, elem, src[..n])
    ensures LaidList(keys, elem, dst, src[..n]) == MergeList(keys, elem, dst, src[..n])
    decreases elem, 1, n
  {
    hide HasType, Shaped, RawKey, HasRawKey, HasKey, KeyOf, Merge, Laid, MergeList, MergeItem, Unique;
    ListTypedIsRaw(keys, elem, dst);
    PrefixIsTyped(keys, elem, src, n);
    ListTypedIsRaw(keys, elem, src[..n]);
    if n == 0 {
      NothingMerged(keys, elem, dst);
      assert src[..0] == [];
    } else {
      var item := src[n - 1];
      LaidListIsMerged(keys, elem, dst, src, n - 1);
      assert src[..n][..n - 1] == src[..n - 1];
      SameKey(keys, item);
      match LastIndex(RawKeys(keys, elem, dst), RawKey(keys, item)) {
        case None => MergeListAppends(keys, elem, dst, src, n - 1);
        case Some(d) =>
          SameKey(keys, dst[d]);
          MergeListOverlays(keys, elem, dst, src, n - 1, d);
          LaidIsMerged(elem, dst[d], item);
      }
    }
  }

  lemma SameKey(keys: seq<nat>, v: Value)
    requires HasKey(keys, v)
    ensures HasRawKey(keys, v) && KeyOf(keys, v) == RawKey(keys, v)
  {
  }

  const ITEM := Struct([Scalar(""), Scalar(""), Scalar("")])
  const FIRST := Record([Text("k"), Text("x"), Text("")])
  const SECOND := Record([Text("k"), Text(""), Text("y")])
  const BOTH := Record([Text("k"), Text("x"), Text("y")])

  lemma ItemsFit()
    ensures WellFormed(ITEM) && WellFormed(KeyedList([0], ITEM))
    ensures Shaped(ITEM, FIRST) && Shaped(ITEM, SECOND) && Shaped(ITEM, BOTH)
  {
    assert Shaped(Scalar(""), Text("k")) && Shaped(Scalar(""), Text("x")) && Shaped(Scalar(""), Text("y"))
             && Shaped(Scalar(""), Text(""));
  }

  lemma ItemsLaid()
    ensures (ItemsFit(); Laid(ITEM, SECOND, FIRST) == BOTH && Laid(ITEM, BOTH, SECOND) == BOTH)
  {
    hide Shaped;
    ItemsFit();
    assert Laid(ITEM, SECOND, FIRST).fields == BOTH.fields;
    assert Laid(ITEM, BOTH, SECOND).fields == BOTH.fields;
  }

  lemma ItemKeys()
    ensures HasRawKey([0], FIRST) && HasRawKey([0], SECOND) && HasRawKey([0], BOTH)
    ensures RawKey([0], FIRST) == RawKey([0], SECOND) == "k"
  {
    assert KeyParts([0], FIRST) == ["k"] && KeyParts([0], SECOND) == ["k"];
  }

  /** Why keys must be unique: a list with two items of the same key is changed by its own overlay. */
  lemma RepeatedKeysAreNotIdempotent()
    ensures var s, a := KeyedList([0], ITEM), List([FIRST, SECOND]);
            WellFormed(s) && Shaped(s, a) && Laid(s, a, a) == List([FIRST, BOTH]) != a
  {
    hide RawKey, HasRawKey;
    ItemsFit();
    ItemsLaid();
    ItemKeys();
    var dst := [FIRST, SECOND];
    ghost var ks := RawKeys([0], ITEM, dst);
    assert ks == ["k", "k"];
    assert LastIndex(ks, "k") == Some(1);
    RepeatedFold(dst);
    assert Shaped(KeyedList([0], ITEM), List(dst));
    assert SECOND.fields[1] != BOTH.fields[1];
  }

  lemma RepeatedFold(dst: seq<Value>)
    requires WellFormed(KeyedList([0], ITEM)) && dst == [FIRST, SECOND] && RawList([0], ITEM, dst)
    requires Shaped(ITEM, BOTH) && Laid(ITEM, SECOND, FIRST) == BOTH && Laid(ITEM, BOTH, SECOND) == BOTH
    requires RawKey([0], FIRST) == RawKey([0], SECOND) == "k" && LastIndex(RawKeys([0], ITEM, dst), "k") == Some(1)
    ensures LaidList([0], ITEM, dst, dst) == [FIRST, BOTH]
  {
    hide RawKey, HasRawKey, Shaped, WellFormed, Laid, LastIndex, RawKeys;
    var one := dst[..1];
    assert one == [FIRST] && one[..0] == [] && RawList([0], ITEM, one) && RawList([0], ITEM, one[..0]);
    assert LaidList([0], ITEM, dst, one[..0]) == dst;
    assert LaidList([0], ITEM, dst, one) == dst[1 := BOTH];
  }

  /** Any value overlaid with one that sets nothing is unchanged, where no struct is replaced bare. */
  lemma {:induction false} LaidNothing(s: Schema, a: Value)
    requires WellFormed(s) && Shaped(s, a) && NoBareAtomic(s)
    ensures Shaped(s, Zero(s)) && Laid(s, a, Zero(s)) == a
  {
    TypedIsShaped(s, Zero(s));
    match s
    case Struct(fields) =>
      forall i | 0 <= i < |fields| ensures Laid(fields[i], a.fields[i], Zero(s).fields[i]) == a.fields[i] {
        assert fields[i] in fields;
        LaidNothing(fields[i], a.fields[i]);
      }
    case _ =>
  }
}
