/** The two indexes of the adoption manager as values, and when they agree with the registry. */
module AdoptionIndex {
  import opened Wrappers
  import opened Ordering
  import opened Reloadable
  import opened Registry

  /** Names by group key. The empty key is never used. */
  type Index = map<string, set<string>>

  function Members(m: Index, groupKey: string): set<string> { if groupKey in m then m[groupKey] else {} }

  function Plus(m: Index, groupKey: string, name: string): (m': Index)
    ensures forall g :: Members(m', g) == Members(m, g) + if g == groupKey && g != "" then {name} else {}
  {
    if groupKey == "" then m else m[groupKey := Members(m, groupKey) + {name}]
  }

  function Minus(m: Index, groupKey: string, name: string): (m': Index)
    requires "" !in m
    ensures forall g :: Members(m', g) == if g == groupKey then Members(m, g) - {name} else Members(m, g)
  {
    if groupKey == "" || groupKey !in m then m else m[groupKey := m[groupKey] - {name}]
  }

  function OwnerKey(owner: Option<Group>): string { if owner.None? then "" else GroupKey(owner.value) }

  lemma OwnerKeyIsProper(owner: Option<Group>)
    ensures OwnerKey(owner) == "" <==> owner.None?
  {
    if owner.Some? {
      assert GroupKey(owner.value)[|owner.value.namespace|] == '/';
    }
  }

  /** An unlocked record is in the standby group of its hash and in no other group, a locked one in
      its owner's adopting group and in no other group, and every grouped key has a record. */
  ghost predicate Agree(hash: Hashable -> string, r: Registry, standby: Index, adopting: Index)
  {
    && "" !in standby && "" !in adopting
    && (forall h, k :: k in Members(standby, h) <==> k in r && r[k].owner.None? && HashOf(hash, r[k].db) == h)
    && (forall g, k :: k in Members(adopting, g) <==> k in r && r[k].owner.Some? && OwnerKey(r[k].owner) == g)
  }

  lemma AgreeEmpty(hash: Hashable -> string)
    ensures Agree(hash, map[], map[], map[])
  {
  }

  lemma AgreeDeleted(hash: Hashable -> string, r: Registry, standby: Index, adopting: Index, k: string)
    requires Agree(hash, r, standby, adopting) && k in r
    ensures Agree(hash, Unregistered(r, k), Minus(standby, HashOf(hash, r[k].db), k),
                  Minus(adopting, OwnerKey(r[k].owner), k))
  {
    hide HashOf, OwnerKey;
  }

  lemma AgreeInserted(hash: Hashable -> string, r: Registry, standby: Index, adopting: Index, k: string, db: TiDB)
    requires Agree(hash, r, standby, adopting) && k !in r && HashOf(hash, db) != ""
    ensures Agree(hash, r[k := Entry(db, None)], Plus(standby, HashOf(hash, db), k), adopting)
  {
    hide HashOf, OwnerKey;
  }

  lemma AgreeReplaced(hash: Hashable -> string, r: Registry, standby: Index, adopting: Index, k: string, db: TiDB)
    requires Agree(hash, r, standby, adopting) && k in r && HashOf(hash, db) != ""
    ensures var r' := r[k := r[k].(db := db)];
            && (r[k].owner.Some? || HashOf(hash, r[k].db) == HashOf(hash, db) ==> Agree(hash, r', standby, adopting))
            && (r[k].owner.None? ==>
                  Agree(hash, r', Plus(Minus(standby, HashOf(hash, r[k].db), k), HashOf(hash, db), k), adopting))
  {
    hide HashOf, OwnerKey;
  }

  lemma AgreeLocked(hash: Hashable -> string, r: Registry, standby: Index, adopting: Index, k: string, g: Group)
    requires Agree(hash, r, standby, adopting) && k in r && r[k].owner.None?
    ensures Agree(hash, r[k := r[k].(owner := Some(g))],
                  Minus(standby, HashOf(hash, r[k].db), k), Plus(adopting, OwnerKey(Some(g)), k))
  {
    hide HashOf, OwnerKey;
    OwnerKeyIsProper(Some(g));
  }

  lemma AgreeUnlocked(hash: Hashable -> string, r: Registry, standby: Index, adopting: Index, k: string)
    requires Agree(hash, r, standby, adopting) && k in r && r[k].owner.Some? && HashOf(hash, r[k].db) != ""
    ensures Agree(hash, Unlocked(r, k),
                  Plus(standby, HashOf(hash, r[k].db), k), Minus(adopting, OwnerKey(r[k].owner), k))
  {
    hide HashOf, OwnerKey;
  }

  // ---------------------------------------------------------------- listing the indexes

  /** Keys in an owner's adopting group are known: the lookup that "should always exist" does. */
  lemma GroupedIsKnown(hash: Hashable -> string, r: Registry, standby: Index, adopting: Index, g: string)
    requires Agree(hash, r, standby, adopting)
    ensures forall k | k in Sorted(Members(adopting, g)) :: k in r && r[k].owner.Some?
    ensures forall k | k in Sorted(Members(standby, g)) :: k in r && r[k].owner.None? && HashOf(hash, r[k].db) == g
  {
    hide HashOf, Members, Sorted;
    forall k | k in Sorted(Members(adopting, g)) ensures k in r && r[k].owner.Some? {
      SortedHolds(Members(adopting, g), k);
    }
    forall k | k in Sorted(Members(standby, g)) ensures k in r && r[k].owner.None? && HashOf(hash, r[k].db) == g {
      SortedHolds(Members(standby, g), k);
    }
  }

  predicate Mine(r: Registry, g: Group, k: string)
  {
    k in r && r[k].owner.Some? && r[k].owner.value.uid == g.uid && SameScope(g, r[k].db)
  }

  function Matching(r: Registry, g: Group, keys: seq<string>): seq<string>
  {
    if keys == [] then []
    else
      var init := Matching(r, g, keys[..|keys| - 1]);
      if Mine(r, g, keys[|keys| - 1]) then init + [keys[|keys| - 1]] else init
  }

  lemma {:induction false} MatchingElements(r: Registry, g: Group, keys: seq<string>, k: string)
    ensures k in Matching(r, g, keys) <==> k in keys && Mine(r, g, k)
  {
    hide Mine;
    if keys != [] {
      MatchingElements(r, g, keys[..|keys| - 1], k);
      assert keys == keys[..|keys| - 1] + [keys[|keys| - 1]];
    }
  }

  lemma {:induction false} MatchingIsAscending(r: Registry, g: Group, keys: seq<string>)
    requires Ascending(keys)
    ensures Ascending(Matching(r, g, keys))
  {
    hide Mine, Less;
    if keys != [] {
      var init := Matching(r, g, keys[..|keys| - 1]);
      MatchingIsAscending(r, g, keys[..|keys| - 1]);
      forall i | 0 <= i < |init| ensures Less(init[i], keys[|keys| - 1]) {
        MatchingElements(r, g, keys[..|keys| - 1], init[i]);
      }
    }
  }

  lemma {:induction false} MatchingPrefix(r: Registry, g: Group, keys: seq<string>, i: nat)
    requires i <= |keys|
    ensures Matching(r, g, keys[..i]) <= Matching(r, g, keys)
    decreases |keys| - i
  {
    hide Mine;
    if i < |keys| {
      MatchingPrefix(r, g, keys, i + 1);
      assert keys[..i + 1][..i] == keys[..i];
    } else {
      assert keys[..i] == keys;
    }
  }

  lemma MatchingNothing(r: Registry, g: Group, keys: seq<string>)
    ensures Matching(r, g, keys[..0]) == []
  {
  }

  lemma MatchingStep(r: Registry, g: Group, keys: seq<string>, i: nat)
    requires i < |keys|
    ensures Matching(r, g, keys[..i + 1]) ==
            if Mine(r, g, keys[i]) then Matching(r, g, keys[..i]) + [keys[i]] else Matching(r, g, keys[..i])
    ensures Matching(r, g, keys[..i + 1]) <= Matching(r, g, keys)
  {
    hide Mine;
    assert keys[..i + 1][..i] == keys[..i];
    MatchingPrefix(r, g, keys, i + 1);
  }

  lemma MatchingIsReserved(hash: Hashable -> string, r: Registry, standby: Index, adopting: Index, g: Group)
    requires Agree(hash, r, standby, adopting)
    ensures Matching(r, g, Sorted(Members(adopting, GroupKey(g)))) == Reserved(r, g)
  {
    hide HashOf, Members, SameScope, Sorted, Matching, Less;
    var keys := Sorted(Members(adopting, GroupKey(g)));
    var found := Matching(r, g, keys);
    MatchingIsAscending(r, g, keys);
    forall k ensures k in Elements(found) <==> k in ReservedKeys(r, g) {
      MatchingElements(r, g, keys, k);
      SortedHolds(Members(adopting, GroupKey(g)), k);
    }
    assert Elements(found) == ReservedKeys(r, g);
    AscendingIsUnique(found, Reserved(r, g));
  }

  /** The first standby key in scope is the least adoptable one. */
  lemma FirstInScope(hash: Hashable -> string, r: Registry, standby: Index, adopting: Index, g: Group,
                     keys: seq<string>, i: nat)
    requires Agree(hash, r, standby, adopting) && keys == Sorted(Members(standby, GroupHash(hash, g)))
    requires i <= |keys|
    requires forall j | 0 <= j < i :: keys[j] in r && !SameScope(g, r[keys[j]].db)
    ensures i == |keys| ==> AdoptableKeys(hash, r, g) == {}
    ensures i < |keys| && keys[i] in r && SameScope(g, r[keys[i]].db) ==>
              AdoptableKeys(hash, r, g) != {} && keys[i] == Least(AdoptableKeys(hash, r, g))
  {
    hide Members, SameScope, Sorted, HashOf, GroupHash, Less;
    var s := AdoptableKeys(hash, r, g);
    forall y | y in s ensures exists j :: i <= j < |keys| && keys[j] == y {
      SortedHolds(Members(standby, GroupHash(hash, g)), y);
      var j :| 0 <= j < |keys| && keys[j] == y;
    }
    if i < |keys| && keys[i] in r && SameScope(g, r[keys[i]].db) {
      SortedHolds(Members(standby, GroupHash(hash, g)), keys[i]);
      assert keys[i] in s;
      forall y | y in s && y != keys[i] ensures Less(keys[i], y) {
        var j :| i <= j < |keys| && keys[j] == y;
      }
      assert IsLeast(keys[i], s);
      LeastIsUnique(s);
    }
  }
}
