/** The adoption manager: shared records, two indexes over them, and unlock functions that may
    outlive the record they were issued for. Callers hold the manager's mutex, so each method
    runs alone. */
module Adoption {
  import opened Wrappers
  import opened Ordering
  import opened Reloadable
  import opened Registry
  import opened AdoptionIndex

  /** Hashes are never empty. */
  ghost predicate ProperHash(hash: Hashable -> string)
  {
    forall x :: hash(x) != ""
  }

  class Groups {
    var m: Index

    constructor ()
      ensures m == map[]
    {
      m := map[];
    }

    method Add(groupKey: string, name: string)
      modifies this
      ensures m == Plus(old(m), groupKey, name)
    {
      if groupKey == "" {
        return;
      }
      var s := if groupKey in m then m[groupKey] else {};
      m := m[groupKey := s + {name}];
    }

    method Del(groupKey: string, name: string)
      requires "" !in m
      modifies this
      ensures m == Minus(old(m), groupKey, name)
    {
      if groupKey == "" || groupKey !in m {
        return;
      }
      m := m[groupKey := m[groupKey] - {name}];
    }

    method List(groupKey: string) returns (names: seq<string>)
      requires "" !in m
      ensures names == Sorted(Members(m, groupKey))
    {
      if groupKey == "" || groupKey !in m {
        return [];
      }
      return Sorted(m[groupKey]);
    }
  }

  class Record {
    var hash: string
    var db: TiDB
    var owner: Option<Group>
    // The unlock function of the current lock.
    ghost var unlocker: Unlocker?

    constructor (hash: string, db: TiDB)
      ensures this.hash == hash && this.db == db && owner == None
    {
      this.hash, this.db, owner := hash, db, None;
    }
  }

  /** The function that releases a lock. It captures the record, not the key. */
  class Unlocker {
    const rec: Record
    // The lock it was issued for, and whether it was called or that lock ended by another call.
    ghost const owner: Group
    ghost var spent: bool

    constructor (rec: Record, ghost owner: Group)
      ensures this.rec == rec && this.owner == owner && !spent
    {
      this.rec, this.owner, spent := rec, owner, false;
    }
  }

  class Manager {
    var records: map<string, Record>
    const standby: Groups
    const adopting: Groups
    const hash: Hashable -> string
    ghost var issued: set<Unlocker>

    /** Records are kept under their keys and know their hashes. */
    ghost predicate Keyed()
      reads this`records, records.Values
    {
      forall k | k in records :: KeyOf(records[k].db) == k && records[k].hash == HashOf(hash, records[k].db)
    }

    /** An unlock function that was not called yet has its lock still in place, and no two of
        them have the same lock. */
    ghost predicate Accounted()
      reads this`issued, issued, set u | u in issued :: u.rec
    {
      forall u | u in issued && !u.spent :: u.rec.owner == Some(u.owner) && u.rec.unlocker == u
    }

    ghost function View(): Registry
      reads this`records, records.Values
    {
      map k | k in records :: Entry(records[k].db, records[k].owner)
    }

    ghost predicate Valid()
      reads this, standby, adopting, records.Values, issued, set u | u in issued :: u.rec
    {
      && standby != adopting && Keyed() && Accounted()
      && Agree(hash, View(), standby.m, adopting.m)
      && ProperHash(hash)
    }

    constructor (hash: Hashable -> string)
      requires ProperHash(hash)
      ensures Valid() && View() == map[] && issued == {} && fresh(standby) && fresh(adopting)
      ensures this.hash == hash
    {
      records := map[];
      standby := new Groups();
      adopting := new Groups();
      this.hash := hash;
      issued := {};
      new;
      hide Agree, ProperHash, HashOf, KeyOf;
      AgreeEmpty(hash);
      assert View() == map[];
    }

    // ---------------------------------------------------------------- single records

    method DropRecord(key: string)
      requires Keyed()
      modifies this`records
      ensures Keyed() && View() == Unregistered(old(View()), key)
      ensures records.Values <= old(records.Values)
    {
      hide HashOf, KeyOf;
      records := records - {key};
      assert View() == Unregistered(old(View()), key);
      assert forall v | v in records.Values :: v in old(records.Values);
    }

    method AddRecord(key: string, h: string, db: TiDB)
      requires Keyed() && key !in records && key == KeyOf(db) && h == HashOf(hash, db)
      modifies this`records
      ensures Keyed() && View() == old(View())[key := Entry(db, None)]
      ensures fresh(records.Values - old(records.Values))
    {
      hide HashOf, KeyOf;
      var rec := new Record(h, db);
      records := records[key := rec];
      assert View() == old(View())[key := Entry(db, None)];
      assert forall v | v in records.Values :: v == rec || v in old(records.Values);
    }

    lemma KnowsRecord(key: string, item: Record)
      requires Keyed() && key in records && records[key] == item
      ensures key in View() && View()[key] == Entry(item.db, item.owner)
      ensures KeyOf(item.db) == key && item.hash == HashOf(hash, item.db)
    {
      hide HashOf, KeyOf;
    }

    lemma NotRecorded(key: string)
      requires key !in records
      ensures View() == Unregistered(View(), key)
    {
    }

    method SetInstance(key: string, item: Record, h: string, db: TiDB)
      requires Keyed() && Accounted() && key in records && records[key] == item
      requires key == KeyOf(db) && h == HashOf(hash, db)
      modifies item`hash, item`db
      ensures Keyed() && Accounted() && View() == old(View())[key := old(View())[key].(db := db)]
    {
      hide HashOf, KeyOf;
      assert forall k | k in records && k != key :: records[k] != item;
      item.hash := h;
      item.db := db;
      assert View() == old(View())[key := old(View())[key].(db := db)];
    }

    method SetOwner(key: string, item: Record, owner: Group)
      requires Keyed() && Accounted() && key in records && records[key] == item && item.owner.None?
      modifies item`owner
      ensures Keyed() && Accounted() && View() == old(View())[key := old(View())[key].(owner := Some(owner))]
      ensures forall u | u in issued && !u.spent :: u.rec != item
    {
      hide HashOf, KeyOf;
      assert forall k | k in records && k != key :: records[k] != item;
      item.owner := Some(owner);
      assert View() == old(View())[key := old(View())[key].(owner := Some(owner))];
    }

    /** Ends the lock on a record. Whatever was issued to release it has nothing left to release. */
    method ClearOwner(key: string, rec: Record)
      requires Keyed() && Accounted() && key in records && records[key] == rec
      modifies issued`spent, rec`owner
      ensures Keyed() && Accounted() && View() == Unlocked(old(View()), key)
      ensures forall v | v in issued :: v.spent == (old(v.spent) || v.rec == rec)
    {
      hide HashOf, KeyOf;
      assert forall k | k in records && k != key :: records[k] != rec;
      forall v | v in issued && v.rec == rec { v.spent := true; }
      rec.owner := None;
      assert View() == Unlocked(old(View()), key);
    }

    // ---------------------------------------------------------------- registration

    method DeleteKey(key: string)
      requires Valid()
      modifies this`records, standby, adopting
      ensures Valid() && View() == Unregistered(old(View()), key)
      ensures records.Values <= old(records.Values)
    {
      hide HashOf, KeyOf, OwnerKey, Members, Plus, Minus, Agree, ProperHash, Accounted, Keyed, View, Unregistered;
      AgreeKeys(hash, View(), standby.m, adopting.m);
      if key !in records {
        NotRecorded(key);
        return;
      }
      var item := records[key];
      KnowsRecord(key, item);
      AgreeDeleted(hash, View(), standby.m, adopting.m, key);
      standby.Del(item.hash, key);
      adopting.Del(OwnerKey(item.owner), key);
      DropRecord(key);
    }

    method Unregister(namespace: string, name: string)
      requires Valid()
      modifies this`records, standby, adopting
      ensures Valid() && View() == Unregistered(old(View()), ObjectKey(namespace, name))
      ensures records.Values <= old(records.Values)
    {
      DeleteKey(ObjectKey(namespace, name));
    }

    method RegisterNew(key: string, db: TiDB)
      requires Valid() && key !in records && key == KeyOf(db)
      modifies this`records, standby
      ensures Valid() && View() == old(View())[key := Entry(db, None)]
      ensures fresh(records.Values - old(records.Values))
    {
      hide HashOf, KeyOf, OwnerKey, Members, Plus, Minus, Agree, ProperHash, Accounted, Keyed;
      HashIsProper(hash, db);
      AgreeInserted(hash, View(), standby.m, adopting.m, key, db);
      var h := HashOf(hash, db);
      AddRecord(key, h, db);
      standby.Add(h, key);
    }

    /** A changed instance replaces the recorded one; its lock, if any, stays. */
    method Replace(key: string, item: Record, db: TiDB)
      requires Valid() && key in records && records[key] == item && key == KeyOf(db)
      modifies item`hash, item`db, standby
      ensures Valid() && View() == old(View())[key := old(View())[key].(db := db)]
    {
      hide HashOf, KeyOf, OwnerKey, Members, Plus, Minus, Agree, ProperHash, Accounted, Keyed, View;
      KnowsRecord(key, item);
      AgreeKeys(hash, View(), standby.m, adopting.m);
      HashIsProper(hash, db);
      AgreeReplaced(hash, View(), standby.m, adopting.m, key, db);
      var oHash, nHash := item.hash, HashOf(hash, db);
      SetInstance(key, item, nHash, db);
      if item.owner.None? && oHash != nHash {
        standby.Del(oHash, key);
        standby.Add(nHash, key);
      }
    }

    method Register(db: TiDB)
      requires Valid()
      modifies this`records, standby, adopting, records.Values
      ensures Valid() && View() == Registered(old(View()), db)
      ensures fresh(records.Values - old(records.Values))
    {
      hide HashOf, KeyOf, Agree, Keyed, Accounted, ProperHash;
      var key := KeyOf(db);
      if db.template.mode.Normal? || db.deleting {
        DeleteKey(key);
        return;
      }
      if key !in records {
        RegisterNew(key, db);
        return;
      }
      var item := records[key];
      if item.db.resourceVersion == db.resourceVersion && item.db.uid == db.uid {
        return;
      }
      Replace(key, item, db);
    }

    method RegisterAll(dbs: seq<TiDB>)
      requires Valid()
      modifies this`records, standby, adopting, records.Values
      ensures Valid() && View() == RegisteredAll(old(View()), dbs)
      ensures fresh(records.Values - old(records.Values))
    {
      hide Agree, Keyed, Accounted, Registered, ProperHash, View;
      for i := 0 to |dbs|
        invariant Valid() && View() == RegisteredAll(old(View()), dbs[..i])
        invariant fresh(records.Values - old(records.Values))
      {
        assert dbs[..i + 1][..i] == dbs[..i];
        Register(dbs[i]);
      }
      assert dbs[..|dbs|] == dbs;
    }

    // ---------------------------------------------------------------- locking

    method Lock(owner: Group, key: string, item: Record)
      requires Valid() && key in records && records[key] == item && item.owner.None?
      modifies item`owner, standby, adopting
      ensures Valid() && View() == old(View())[key := old(View())[key].(owner := Some(owner))]
      ensures forall u | u in issued && !u.spent :: u.rec != item
    {
      hide HashOf, KeyOf, OwnerKey, Members, Plus, Minus, Agree, ProperHash, Accounted, Keyed, View;
      KnowsRecord(key, item);
      AgreeKeys(hash, View(), standby.m, adopting.m);
      AgreeLocked(hash, View(), standby.m, adopting.m, key, owner);
      var h := item.hash;
      SetOwner(key, item, owner);
      standby.Del(h, key);
      adopting.Add(OwnerKey(Some(owner)), key);
    }

    /** The function that will release the lock on `item`. */
    method UnlockFunc(item: Record, ghost owner: Group) returns (unlock: Unlocker)
      requires Valid() && item.owner == Some(owner)
      requires forall u | u in issued && !u.spent :: u.rec != item
      modifies this`issued, item`unlocker
      ensures Valid() && View() == old(View())
      ensures fresh(unlock) && issued == old(issued) + {unlock}
      ensures unlock.rec == item && unlock.owner == owner && !unlock.spent
    {
      hide HashOf, KeyOf, Members, Agree, ProperHash;
      unlock := new Unlocker(item, owner);
      item.unlocker := unlock;
      issued := issued + {unlock};
      assert View() == old(View());
      assert Keyed();
    }

    /** The `index`-th instance already reserved for the group. */
    method FindReserved(g: Group, index: int) returns (key: Option<string>)
      requires Valid()
      ensures key == if 0 <= index < |Reserved(View(), g)| then Some(Reserved(View(), g)[index]) else None
    {
      hide HashOf, KeyOf, Keyed, Accounted, Agree, Members, ProperHash, Reserved, Sorted, SameScope, Matching, GroupKey;
      ghost var r := View();
      AgreeKeys(hash, r, standby.m, adopting.m);
      GroupedIsKnown(hash, r, standby.m, adopting.m, GroupKey(g));
      MatchingIsReserved(hash, r, standby.m, adopting.m, g);
      var keys := adopting.List(GroupKey(g));
      var reservedIndex := 0;
      MatchingNothing(r, g, keys);
      for i := 0 to |keys|
        invariant reservedIndex == |Matching(r, g, keys[..i])|
        invariant !(0 <= index < reservedIndex)
      {
        var inKey := keys[i];
        MatchingStep(r, g, keys, i);
        var item := records[inKey];
        if item.owner.value.uid != g.uid || !SameScope(g, item.db) {
          continue;
        }
        if reservedIndex != index {
          reservedIndex := reservedIndex + 1;
          continue;
        }
        return Some(inKey);
      }
      assert keys[..|keys|] == keys;
      return None;
    }

    /** The first standby instance the group may take. */
    method FindStandby(g: Group) returns (key: Option<string>)
      requires Valid()
      ensures key.None? <==> AdoptableKeys(hash, View(), g) == {}
      ensures key.Some? ==>
                && AdoptableKeys(hash, View(), g) != {} && key.value == Least(AdoptableKeys(hash, View(), g))
                && key.value in records && records[key.value].owner.None?
    {
      hide HashOf, KeyOf, Keyed, Accounted, Agree, Members, ProperHash, AdoptableKeys, Sorted, SameScope, GroupHash;
      ghost var r := View();
      AgreeKeys(hash, r, standby.m, adopting.m);
      GroupedIsKnown(hash, r, standby.m, adopting.m, GroupHash(hash, g));
      var keys := standby.List(GroupHash(hash, g));
      for i := 0 to |keys|
        invariant forall j | 0 <= j < i :: keys[j] in r && !SameScope(g, r[keys[j]].db)
      {
        FirstInScope(hash, r, standby.m, adopting.m, g, keys, i);
        var k := keys[i];
        if !SameScope(g, records[k].db) {
          continue;
        }
        return Some(k);
      }
      FirstInScope(hash, r, standby.m, adopting.m, g, keys, |keys|);
      return None;
    }

    /** Hands out an instance for the `index`-th adoption of a reconciliation. A fresh lock comes
        with the function that releases it. */
    method Adopt(g: Group, index: int) returns (db: Option<TiDB>, unlock: Unlocker?)
      requires Valid()
      modifies this`issued, standby, adopting, records.Values
      ensures Valid() && View() == AfterAdopt(hash, old(View()), g, index)
      ensures var key := Adopted(hash, old(View()), g, index);
              && (db.Some? <==> key.Some?)
              && (key.Some? ==> key.value in old(View()) && db == Some(old(View())[key.value].db))
              && (unlock != null <==> key.Some? && TakesLock(old(View()), g, index))
              && (unlock != null ==> fresh(unlock) && IsCurrent(unlock) && unlock.owner == g && !unlock.spent)
      ensures issued == old(issued) + (if unlock != null then {unlock} else {})
      ensures db.Some? ==> db.value.namespace == g.namespace && db.value.cluster == g.cluster
    {
      hide HashOf, KeyOf, Keyed, Accounted, Agree, Members, ProperHash, AdoptableKeys, Reserved, Least, GroupHash;
      AdoptedIsInScope(hash, View(), g, index);
      if g.template.mode.StandBy? {
        return None, null;
      }
      AdoptedIsKnown(hash, View(), g, index);
      var reserved := FindReserved(g, index);
      if reserved.Some? {
        return Some(records[reserved.value].db), null;
      }
      var found := FindStandby(g);
      if found.None? {
        return None, null;
      }
      var standbyDb;
      standbyDb, unlock := LockFresh(g, found.value);
      return Some(standbyDb), unlock;
    }

    /** Locks a standby instance for the group. */
    method LockFresh(g: Group, key: string) returns (db: TiDB, unlock: Unlocker)
      requires Valid() && key in records && records[key].owner.None?
      modifies this`issued, standby, adopting, records[key]
      ensures Valid() && View() == old(View())[key := old(View())[key].(owner := Some(g))]
      ensures db == old(View())[key].db
      ensures fresh(unlock) && IsCurrent(unlock) && unlock.owner == g && !unlock.spent
      ensures issued == old(issued) + {unlock}
    {
      hide HashOf, KeyOf, Keyed, Accounted, Agree, Members, ProperHash;
      var item := records[key];
      KnowsRecord(key, item);
      Lock(g, key, item);
      unlock := UnlockFunc(item, g);
      return item.db, unlock;
    }

    /** Whether the unlock function's record is still the registered one. */
    ghost predicate IsCurrent(u: Unlocker)
      reads this, u.rec
    {
      KeyOf(u.rec.db) in records && records[KeyOf(u.rec.db)] == u.rec
    }

    /** Calling an unlock function, any number of times. It releases whatever lock its record has, if
        the record is still the registered one. That is the lock it was issued for unless it was
        spent before: by an earlier call, or by another function of the same record. */
    method Unlock(u: Unlocker)
      requires Valid() && u in issued
      modifies issued`spent, u.rec`owner, standby, adopting
      ensures Valid() && u.spent
      ensures old(IsCurrent(u)) && old(u.rec.owner).Some? ==>
                && KeyOf(u.rec.db) in old(View()) && old(View())[KeyOf(u.rec.db)].owner == old(u.rec.owner)
                && View() == Unlocked(old(View()), KeyOf(u.rec.db))
      ensures !old(IsCurrent(u)) || old(u.rec.owner).None? ==> View() == old(View())
      ensures !old(u.spent) ==> old(u.rec.owner) == Some(u.owner)
      ensures forall v | v in issued && v.rec != u.rec :: v.spent == old(v.spent)
    {
      hide HashOf, KeyOf, OwnerKey, Members, Plus, Minus, Agree, ProperHash, Accounted, Keyed;
      var rec := u.rec;
      if !u.spent { LockInPlace(u); }
      if rec.owner.None? {
        return;
      }
      var key := KeyOf(rec.db);
      if key !in records || records[key] != rec {
        MarkSpent(u);
        return;
      }
      Release(key, rec);
    }

    /** Ends the lock on a registered record and moves its key back to the standby group. */
    method Release(key: string, rec: Record)
      requires Valid() && key in records && records[key] == rec && rec.owner.Some?
      modifies issued`spent, rec`owner, standby, adopting
      ensures Valid() && View() == Unlocked(old(View()), key)
      ensures forall v | v in issued :: v.spent == (old(v.spent) || v.rec == rec)
    {
      hide HashOf, KeyOf, OwnerKey, Members, Plus, Minus, Agree, ProperHash, Accounted, Keyed, View, Unlocked;
      KnowsRecord(key, rec);
      AgreeKeys(hash, View(), standby.m, adopting.m);
      HashIsProper(hash, rec.db);
      AgreeUnlocked(hash, View(), standby.m, adopting.m, key);
      var ownerKey := OwnerKey(rec.owner);
      ClearOwner(key, rec);
      adopting.Del(ownerKey, key);
      standby.Add(rec.hash, key);
    }

    lemma LockInPlace(u: Unlocker)
      requires Accounted() && u in issued && !u.spent
      ensures u.rec.owner == Some(u.owner)
    {
    }

    ghost method MarkSpent(u: Unlocker)
      requires Accounted()
      modifies u`spent
      ensures Accounted() && u.spent
    {
      u.spent := true;
    }
  }

  function RegisteredAll(r: Registry, dbs: seq<TiDB>): Registry
  {
    if dbs == [] then r else Registered(RegisteredAll(r, dbs[..|dbs| - 1]), dbs[|dbs| - 1])
  }

  lemma HashIsProper(hash: Hashable -> string, db: TiDB)
    requires ProperHash(hash)
    ensures HashOf(hash, db) != ""
  {
  }

  lemma AgreeKeys(hash: Hashable -> string, r: Registry, standby: Index, adopting: Index)
    requires Agree(hash, r, standby, adopting)
    ensures "" !in standby && "" !in adopting
  {
  }
}
