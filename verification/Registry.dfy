/** The adoption registry as a value: which standby instances are known and which group, if any,
    has each of them locked. The operations are those of the adoption manager. */
module Registry {
  import opened Wrappers
  import opened Ordering
  import opened Reloadable

  datatype Entry = Entry(db: TiDB, owner: Option<Group>)

  type Registry = map<string, Entry>

  function ObjectKey(namespace: string, name: string): string { namespace + "/" + name }

  function KeyOf(db: TiDB): string { ObjectKey(db.namespace, db.name) }

  function GroupKey(g: Group): string { ObjectKey(g.namespace, g.name) }

  predicate SameScope(g: Group, db: TiDB) { g.namespace == db.namespace && g.cluster == db.cluster }

  function HashOf(hash: Hashable -> string, db: TiDB): string { hash(HashInput(db.features, db.template)) }

  function GroupHash(hash: Hashable -> string, g: Group): string { hash(HashInput(g.features, g.template)) }

  // ---------------------------------------------------------------- operations

  predicate Forgets(db: TiDB) { db.template.mode.Normal? || db.deleting }

  predicate SameVersion(a: TiDB, b: TiDB) { a.resourceVersion == b.resourceVersion && a.uid == b.uid }

  /** An instance in normal mode or being deleted is forgotten; a changed one is replaced and
      keeps its lock. */
  function Registered(r: Registry, db: TiDB): Registry
  {
    var key := KeyOf(db);
    if Forgets(db) then r - {key}
    else if key !in r then r[key := Entry(db, None)]
    else if SameVersion(r[key].db, db) then r
    else r[key := r[key].(db := db)]
  }

  function Unregistered(r: Registry, key: string): Registry { r - {key} }

  function Unlocked(r: Registry, key: string): Registry
  {
    if key in r then r[key := r[key].(owner := None)] else r
  }

  /** Locked by exactly this group, wherever the instance is by now. */
  predicate LockedBy(g: Group, e: Entry)
  {
    e.owner.Some? && GroupKey(e.owner.value) == GroupKey(g) && e.owner.value.uid == g.uid
  }

  /** Locked by exactly this group, and still in its namespace and cluster. */
  predicate ReservedFor(g: Group, e: Entry)
  {
    LockedBy(g, e) && SameScope(g, e.db)
  }

  predicate Adoptable(hash: Hashable -> string, g: Group, e: Entry)
  {
    e.owner.None? && HashOf(hash, e.db) == GroupHash(hash, g) && SameScope(g, e.db)
  }

  function ReservedKeys(r: Registry, g: Group): set<string> { set k | k in r && ReservedFor(g, r[k]) }

  function AdoptableKeys(hash: Hashable -> string, r: Registry, g: Group): set<string>
  {
    set k | k in r && Adoptable(hash, g, r[k])
  }

  function Reserved(r: Registry, g: Group): seq<string> { Sorted(ReservedKeys(r, g)) }

  /** The key handed out for the `index`-th adoption of a reconciliation. */
  function Adopted(hash: Hashable -> string, r: Registry, g: Group, index: int): Option<string>
  {
    if g.template.mode.StandBy? then None
    else if 0 <= index < |Reserved(r, g)| then Some(Reserved(r, g)[index])
    else if AdoptableKeys(hash, r, g) == {} then None
    else Some(Least(AdoptableKeys(hash, r, g)))
  }

  predicate TakesLock(r: Registry, g: Group, index: int)
  {
    !(0 <= index < |Reserved(r, g)|)
  }

  function AfterAdopt(hash: Hashable -> string, r: Registry, g: Group, index: int): Registry
  {
    var key := Adopted(hash, r, g, index);
    if key.Some? && TakesLock(r, g, index) && key.value in r
    then r[key.value := r[key.value].(owner := Some(g))]
    else r
  }

  lemma AdoptedIsKnown(hash: Hashable -> string, r: Registry, g: Group, index: int)
    ensures var key := Adopted(hash, r, g, index);
            key.Some? ==>
              && key.value in r
              && (TakesLock(r, g, index) ==> Adoptable(hash, g, r[key.value]))
              && (!TakesLock(r, g, index) ==> ReservedFor(g, r[key.value]))
  {
    hide ReservedFor, Adoptable;
    var key := Adopted(hash, r, g, index);
    if key.Some? && !TakesLock(r, g, index) {
      assert key.value in Elements(Reserved(r, g));
    }
  }

  /** What is handed out is in the group's namespace and cluster, and nobody else's. */
  lemma AdoptedIsInScope(hash: Hashable -> string, r: Registry, g: Group, index: int)
    ensures var key := Adopted(hash, r, g, index);
            key.Some? ==>
              && key.value in r
              && r[key.value].db.namespace == g.namespace && r[key.value].db.cluster == g.cluster
              && (r[key.value].owner.None? || r[key.value].owner.value.uid == g.uid)
  {
    AdoptedIsKnown(hash, r, g, index);
  }

  /** Nothing is handed out exactly to groups of standby instances, and where the group has too few
      reservations and no free instance of its scope has its hash. */
  lemma RefusedExactly(hash: Hashable -> string, r: Registry, g: Group, index: int)
    ensures Adopted(hash, r, g, index).None? <==>
              || g.template.mode.StandBy?
              || (&& !(0 <= index < |set k | k in r && OwnReservation(g, r[k])|)
                  && forall k | k in r && r[k].owner.None? && r[k].db.namespace == g.namespace ::
                       r[k].db.cluster == g.cluster ==>
                         hash(HashInput(r[k].db.features, r[k].db.template)) != hash(HashInput(g.features, g.template)))
  {
    assert (set k | k in r && OwnReservation(g, r[k])) == ReservedKeys(r, g);
    var keys := AdoptableKeys(hash, r, g);
    if keys != {} {
      var k :| k in keys;
      assert k in r && r[k].owner.None? && r[k].db.namespace == g.namespace;
    }
    if k :| k in r && r[k].owner.None? && r[k].db.namespace == g.namespace && r[k].db.cluster == g.cluster
            && hash(HashInput(r[k].db.features, r[k].db.template)) == hash(HashInput(g.features, g.template)) {
      assert k in keys;
    }
  }

  /** An instance of the group's scope that the group has locked before. */
  predicate OwnReservation(g: Group, e: Entry)
  {
    && e.owner.Some? && e.owner.value.uid == g.uid
    && e.owner.value.namespace + "/" + e.owner.value.name == g.namespace + "/" + g.name
    && e.db.namespace == g.namespace && e.db.cluster == g.cluster
  }

  /** Of the free instances the least is handed out, and of the reservations the index-th. */
  lemma AdoptsInOrder(hash: Hashable -> string, r: Registry, g: Group, index: int, k: string)
    requires Adopted(hash, r, g, index).Some? && k in r
    ensures TakesLock(r, g, index) && r[k].owner.None? && r[k].db.namespace == g.namespace
            && r[k].db.cluster == g.cluster
            && hash(HashInput(r[k].db.features, r[k].db.template)) == hash(HashInput(g.features, g.template)) ==>
              k == Adopted(hash, r, g, index).value || Less(Adopted(hash, r, g, index).value, k)
    ensures !TakesLock(r, g, index) ==>
              forall j | 0 <= j < index ::
                Adopted(hash, r, g, j).Some? && Less(Adopted(hash, r, g, j).value, Adopted(hash, r, g, index).value)
  {
    hide Less;
    if Adoptable(hash, g, r[k]) { assert k in AdoptableKeys(hash, r, g); }
  }

  // ---------------------------------------------------------------- no restart

  /** An instance freshly locked for a group is in the group's namespace and cluster; if it is a
      standby instance, the group takes it over without a restart. */
  lemma AdoptionNeverRestarts(hash: Hashable -> string, r: Registry, g: Group, index: int,
                              unreloadable: map<string, seq<string>>)
    requires Injective(hash)
    requires Adopted(hash, r, g, index).Some? && TakesLock(r, g, index)
    ensures var key := Adopted(hash, r, g, index).value;
            && key in r && r[key].db.namespace == g.namespace && r[key].db.cluster == g.cluster
            && (r[key].db.template.mode.StandBy? ==> CheckTiDB(g, r[key].db, unreloadable))
  {
    hide EqualTemplates, FeaturesReloadable, CheckTiDB, HashInput;
    AdoptedIsKnown(hash, r, g, index);
    HashDecidesReload(g, r[Adopted(hash, r, g, index).value].db, hash, unreloadable);
  }

  // ---------------------------------------------------------------- exclusion

  datatype Event =
    | Register(db: TiDB)
    | Unregister(key: string)
    | Adopt(group: Group, index: int)
    | Unlock(key: string)

  function Next(hash: Hashable -> string, r: Registry, e: Event): Registry
  {
    match e
    case Register(db) => Registered(r, db)
    case Unregister(key) => Unregistered(r, key)
    case Adopt(g, index) => AfterAdopt(hash, r, g, index)
    case Unlock(key) => Unlocked(r, key)
  }

  function After(hash: Hashable -> string, r: Registry, es: seq<Event>): Registry
  {
    if es == [] then r else Next(hash, After(hash, r, es[..|es| - 1]), es[|es| - 1])
  }

  /** What an event does, entry by entry. Registering a normal or deleting instance forgets it; any other is
      known by its own version afterwards, and whoever had it locked still has. Only an adoption locks, and only
      a release unlocks. */
  lemma EventsChangeOneEntry(hash: Hashable -> string, r: Registry, e: Event, k: string)
    ensures var r' := Next(hash, r, e);
            match e
            case Register(db) =>
              if k != db.namespace + "/" + db.name then (k in r' <==> k in r) && (k in r ==> r'[k] == r[k])
              else if db.template.mode.Normal? || db.deleting then k !in r'
              else
                && k in r' && r'[k].owner == (if k in r then r[k].owner else None)
                && r'[k].db.uid == db.uid && r'[k].db.resourceVersion == db.resourceVersion
                && (r'[k].db == db || (k in r && r'[k] == r[k]))
            case Unregister(key) => if k == key then k !in r' else (k in r' <==> k in r) && (k in r ==> r'[k] == r[k])
            case Adopt(g, index) =>
              && (k in r' <==> k in r)
              && (k in r ==>
                    && r'[k].db == r[k].db
                    && (r'[k].owner == r[k].owner || (r[k].owner.None? && r'[k].owner == Some(g)))
                    && (r[k].owner.None? && Adopted(hash, r, g, index) == Some(k) ==> r'[k].owner == Some(g)))
            case Unlock(key) =>
              && (k in r' <==> k in r)
              && (k in r ==> r'[k].db == r[k].db && r'[k].owner == if k == key then None else r[k].owner)
  {
    hide HashOf, GroupHash, SameScope, Reserved, AdoptableKeys;
    if e.Adopt? {
      AdoptedIsKnown(hash, r, e.group, e.index);
    }
  }

  /** No normal or deleting instance is ever known, so none is handed out. */
  lemma {:induction false} OnlyAdoptableIsKnown(hash: Hashable -> string, es: seq<Event>, k: string)
    requires k in After(hash, map[], es)
    ensures var db := After(hash, map[], es)[k].db;
            !db.template.mode.Normal? && !db.deleting && k == db.namespace + "/" + db.name
  {
    hide Next;
    var before, e := After(hash, map[], es[..|es| - 1]), es[|es| - 1];
    EventsChangeOneEntry(hash, before, e, k);
    if k in before { OnlyAdoptableIsKnown(hash, es[..|es| - 1], k); }
  }

  /** Events that end a lock: releasing it, or forgetting the instance. */
  predicate Frees(e: Event, key: string)
  {
    match e
    case Register(db) => KeyOf(db) == key && Forgets(db)
    case Unregister(k) => k == key
    case Adopt(_, _) => false
    case Unlock(k) => k == key
  }

  lemma LockSurvivesEvent(hash: Hashable -> string, r: Registry, e: Event, key: string, owner: Group)
    requires key in r && r[key].owner == Some(owner) && !Frees(e, key)
    ensures var r' := Next(hash, r, e); key in r' && r'[key].owner == Some(owner)
    ensures e.Adopt? && Adopted(hash, r, e.group, e.index) == Some(key) ==> e.group.uid == owner.uid
  {
    hide Reserved, HashOf, GroupHash, SameScope;
    if e.Adopt? {
      AdoptedIsKnown(hash, r, e.group, e.index);
    }
  }

  /** Over any sequence of events that does not free it, a locked instance stays locked by its
      owner and is handed out to nobody else. */
  lemma {:induction false} LockExcludes(hash: Hashable -> string, r: Registry, es: seq<Event>, key: string,
                                        owner: Group)
    requires key in r && r[key].owner == Some(owner)
    requires forall e | e in es :: !Frees(e, key)
    ensures var r' := After(hash, r, es); key in r' && r'[key].owner == Some(owner)
    ensures forall i | 0 <= i < |es| && es[i].Adopt? ::
              Adopted(hash, After(hash, r, es[..i]), es[i].group, es[i].index) == Some(key) ==>
                es[i].group.uid == owner.uid
  {
    hide Frees, Next, Adopted;
    if es != [] {
      var init := es[..|es| - 1];
      LockExcludes(hash, r, init, key, owner);
      assert es[|es| - 1] in es;
      LockSurvivesEvent(hash, After(hash, r, init), es[|es| - 1], key, owner);
      forall i | 0 <= i < |es| && es[i].Adopt?
        ensures Adopted(hash, After(hash, r, es[..i]), es[i].group, es[i].index) == Some(key) ==>
                  es[i].group.uid == owner.uid
      {
        if i < |init| { assert init[i] == es[i] && init[..i] == es[..i]; }
      }
    }
  }

  // ---------------------------------------------------------------- one reconciliation

  /** What others may do while a group reconciles: adopt for themselves, and register, release or
      forget anything but the group's reservations. An instance the group has locked must not enter
      or leave its namespace and cluster. */
  predicate Harmless(r: Registry, g: Group, e: Event)
  {
    match e
    case Register(db) =>
      var k := KeyOf(db);
      k in r && LockedBy(g, r[k]) ==>
        if Forgets(db) then !SameScope(g, r[k].db)
        else SameVersion(r[k].db, db) || (SameScope(g, db) <==> SameScope(g, r[k].db))
    case Unregister(k) => k in r ==> !ReservedFor(g, r[k])
    case Adopt(other, _) => other.uid != g.uid
    case Unlock(k) => k in r ==> !ReservedFor(g, r[k])
  }

  ghost predicate AllHarmless(hash: Hashable -> string, r: Registry, g: Group, es: seq<Event>)
  {
    forall i | 0 <= i < |es| :: Harmless(After(hash, r, es[..i]), g, es[i])
  }

  /** Registering keeps reservations as long as nothing is forgotten and no known instance moves to
      another namespace or cluster, which the API does not allow. */
  lemma RegisteringIsHarmless(r: Registry, g: Group, db: TiDB)
    requires !Forgets(db)
    requires KeyOf(db) in r ==> r[KeyOf(db)].db.namespace == db.namespace && r[KeyOf(db)].db.cluster == db.cluster
    ensures Harmless(r, g, Register(db))
  {
  }

  /** The registry after `g` has made its first `i` calls, with indexes 0, 1, ..., i - 1, where
      the events `others[j]` happened just before its j-th one. */
  function AfterOwn(hash: Hashable -> string, r: Registry, g: Group, others: seq<seq<Event>>, i: nat): Registry
    requires i <= |others|
    decreases i, 0
  {
    if i == 0 then r else AfterAdopt(hash, BeforeOwn(hash, r, g, others, i - 1), g, i - 1)
  }

  /** The registry its `i`-th call sees. */
  function BeforeOwn(hash: Hashable -> string, r: Registry, g: Group, others: seq<seq<Event>>, i: nat): Registry
    requires i < |others|
    decreases i, 1
  {
    After(hash, AfterOwn(hash, r, g, others, i), others[i])
  }

  function Result(hash: Hashable -> string, r: Registry, g: Group, others: seq<seq<Event>>, i: nat): Option<string>
    requires i < |others|
  {
    Adopted(hash, BeforeOwn(hash, r, g, others, i), g, i)
  }

  ghost predicate Undisturbed(hash: Hashable -> string, r: Registry, g: Group, others: seq<seq<Event>>)
  {
    forall i | 0 <= i < |others| :: AllHarmless(hash, AfterOwn(hash, r, g, others, i), g, others[i])
  }

  /** Every one of the group's calls got an instance. */
  ghost predicate AllSucceed(hash: Hashable -> string, r: Registry, g: Group, others: seq<seq<Event>>)
  {
    forall i | 0 <= i < |others| :: Result(hash, r, g, others, i).Some?
  }

  /** `Harmless` is exactly what keeps the reservations, the group's own calls aside. */
  lemma HarmlessExactly(hash: Hashable -> string, r: Registry, g: Group, e: Event)
    requires e.Adopt? ==> e.group.uid != g.uid
    ensures ReservedKeys(Next(hash, r, e), g) == ReservedKeys(r, g) <==> Harmless(r, g, e)
  {
    hide HashOf, GroupHash, Adopted, TakesLock;
    var before, after := ReservedKeys(r, g), ReservedKeys(Next(hash, r, e), g);
    match e
    case Adopt(other, index) => AdoptedIsKnown(hash, r, other, index);
    case Register(db) =>
      if !Harmless(r, g, e) { assert KeyOf(db) in before <==> KeyOf(db) !in after; }
    case Unregister(k) => if !Harmless(r, g, e) { assert k in before && k !in after; }
    case Unlock(k) => if !Harmless(r, g, e) { assert k in before && k !in after; }
  }

  lemma {:induction false} HarmlessKeepReserved(hash: Hashable -> string, r: Registry, g: Group, es: seq<Event>)
    requires AllHarmless(hash, r, g, es)
    ensures ReservedKeys(After(hash, r, es), g) == ReservedKeys(r, g)
  {
    hide ReservedKeys, Next, Harmless;
    if es != [] {
      var init, last := es[..|es| - 1], es[|es| - 1];
      forall i | 0 <= i < |init| ensures Harmless(After(hash, r, init[..i]), g, init[i]) {
        assert init[..i] == es[..i];
      }
      HarmlessKeepReserved(hash, r, g, init);
      assert Harmless(After(hash, r, init), g, last);
      HarmlessIsNotOwn(After(hash, r, init), g, last);
      HarmlessExactly(hash, After(hash, r, init), g, last);
    }
  }

  lemma HarmlessIsNotOwn(r: Registry, g: Group, e: Event)
    requires Harmless(r, g, e)
    ensures e.Adopt? ==> e.group.uid != g.uid
  {
  }

  lemma OwnCall(hash: Hashable -> string, r: Registry, g: Group, index: int)
    requires Adopted(hash, r, g, index).Some?
    ensures var key := Adopted(hash, r, g, index).value;
            if TakesLock(r, g, index)
            then key !in ReservedKeys(r, g)
              && ReservedKeys(AfterAdopt(hash, r, g, index), g) == ReservedKeys(r, g) + {key}
            else AfterAdopt(hash, r, g, index) == r && key == Reserved(r, g)[index]
  {
    hide HashOf, GroupHash, SameScope, Reserved;
    AdoptedIsKnown(hash, r, g, index);
  }

  /** What the group's first `i` calls have returned: a prefix of what was reserved for it before,
      and once that is used up, exactly what is reserved now. */
  ghost predicate HandedOut(hash: Hashable -> string, r: Registry, g: Group, others: seq<seq<Event>>, i: nat)
    requires i <= |others|
  {
    var before, now := ReservedKeys(r, g), ReservedKeys(AfterOwn(hash, r, g, others, i), g);
    && (i <= |before| ==>
        now == before && forall j | 0 <= j < i :: Result(hash, r, g, others, j) == Some(Reserved(r, g)[j]))
    && (i >= |before| ==> |now| == i && now == Results(hash, r, g, others, i))
  }

  ghost function Results(hash: Hashable -> string, r: Registry, g: Group, others: seq<seq<Event>>, i: nat): set<string>
    requires i <= |others|
  {
    set j | 0 <= j < i && Result(hash, r, g, others, j).Some? :: Result(hash, r, g, others, j).value
  }

  lemma ReservedIsSorted(r: Registry, g: Group)
    ensures |Reserved(r, g)| == |ReservedKeys(r, g)| && Elements(Reserved(r, g)) == ReservedKeys(r, g)
    ensures forall i, j | 0 <= i < j < |Reserved(r, g)| :: Reserved(r, g)[i] != Reserved(r, g)[j]
  {
    AscendingDistinct(Reserved(r, g));
  }

  lemma ResultsGrow(hash: Hashable -> string, r: Registry, g: Group, others: seq<seq<Event>>, i: nat)
    requires i < |others| && Result(hash, r, g, others, i).Some?
    ensures Results(hash, r, g, others, i + 1) == Results(hash, r, g, others, i) + {Result(hash, r, g, others, i).value}
  {
    hide Result;
  }

  lemma PrefixResults(hash: Hashable -> string, r: Registry, g: Group, others: seq<seq<Event>>)
    requires |ReservedKeys(r, g)| <= |others|
    requires forall j | 0 <= j < |ReservedKeys(r, g)| ::
               |Reserved(r, g)| > j && Result(hash, r, g, others, j) == Some(Reserved(r, g)[j])
    ensures Results(hash, r, g, others, |ReservedKeys(r, g)|) == ReservedKeys(r, g)
  {
    hide Result, Reserved;
    ReservedIsSorted(r, g);
    var n := |ReservedKeys(r, g)|;
    forall k | k in ReservedKeys(r, g) ensures k in Results(hash, r, g, others, n) {
      assert k in Elements(Reserved(r, g));
      var j :| 0 <= j < n && Reserved(r, g)[j] == k;
      assert Result(hash, r, g, others, j) == Some(k);
    }
    forall k | k in Results(hash, r, g, others, n) ensures k in ReservedKeys(r, g) {
      var j :| 0 <= j < n && Result(hash, r, g, others, j).Some? && Result(hash, r, g, others, j).value == k;
      assert Reserved(r, g)[j] in Elements(Reserved(r, g));
    }
  }

  /** The registry a call sees has the same reservations as the one the previous call left. */
  lemma SeenReservations(hash: Hashable -> string, r: Registry, g: Group, others: seq<seq<Event>>, i: nat)
    requires i < |others| && Undisturbed(hash, r, g, others)
    ensures var seen := BeforeOwn(hash, r, g, others, i);
            && ReservedKeys(seen, g) == ReservedKeys(AfterOwn(hash, r, g, others, i), g)
            && |Reserved(seen, g)| == |ReservedKeys(seen, g)|
            && AfterOwn(hash, r, g, others, i + 1) == AfterAdopt(hash, seen, g, i)
  {
    hide ReservedKeys, Adopted, AfterAdopt, After, Sorted;
    HarmlessKeepReserved(hash, AfterOwn(hash, r, g, others, i), g, others[i]);
    ReservedIsSorted(BeforeOwn(hash, r, g, others, i), g);
  }

  lemma HandOutReserved(hash: Hashable -> string, r: Registry, g: Group, others: seq<seq<Event>>, i: nat)
    requires i < |others| && i < |ReservedKeys(r, g)| && Undisturbed(hash, r, g, others)
    requires HandedOut(hash, r, g, others, i) && Result(hash, r, g, others, i).Some?
    ensures Result(hash, r, g, others, i) == Some(Reserved(r, g)[i])
    ensures ReservedKeys(AfterOwn(hash, r, g, others, i + 1), g) == ReservedKeys(r, g)
  {
    hide ReservedKeys, Adopted, AfterAdopt, After, Results, Sorted, BeforeOwn, AfterOwn;
    SeenReservations(hash, r, g, others, i);
    OwnCall(hash, BeforeOwn(hash, r, g, others, i), g, i);
  }

  lemma HandOutFresh(hash: Hashable -> string, r: Registry, g: Group, others: seq<seq<Event>>, i: nat)
    requires i < |others| && i >= |ReservedKeys(r, g)| && Undisturbed(hash, r, g, others)
    requires HandedOut(hash, r, g, others, i) && Result(hash, r, g, others, i).Some?
    ensures |ReservedKeys(AfterOwn(hash, r, g, others, i + 1), g)| == i + 1
    ensures ReservedKeys(AfterOwn(hash, r, g, others, i + 1), g) == Results(hash, r, g, others, i + 1)
    ensures Result(hash, r, g, others, i).value !in Results(hash, r, g, others, i)
  {
    hide ReservedKeys, Adopted, AfterAdopt, After, Results, Sorted, BeforeOwn, AfterOwn, Reserved;
    SeenReservations(hash, r, g, others, i);
    OwnCall(hash, BeforeOwn(hash, r, g, others, i), g, i);
    ResultsGrow(hash, r, g, others, i);
  }

  lemma {:induction false} CallsHandOut(hash: Hashable -> string, r: Registry, g: Group, others: seq<seq<Event>>,
                                        i: nat)
    requires i <= |others| && Undisturbed(hash, r, g, others) && AllSucceed(hash, r, g, others)
    ensures HandedOut(hash, r, g, others, i)
  {
    hide ReservedKeys, Result, AfterOwn, Results, Reserved;
    ReservedIsSorted(r, g);
    if i == 0 {
      ResultsEmpty(hash, r, g, others);
    } else {
      CallsHandOut(hash, r, g, others, i - 1);
      if i - 1 < |ReservedKeys(r, g)| {
        HandOutReserved(hash, r, g, others, i - 1);
        if i == |ReservedKeys(r, g)| { PrefixResults(hash, r, g, others); }
      } else {
        HandOutFresh(hash, r, g, others, i - 1);
      }
    }
  }

  /** One reconciliation, harmless events in between: the instances a group adopts are
      pairwise distinct. */
  lemma AdoptionsAreDistinct(hash: Hashable -> string, r: Registry, g: Group, others: seq<seq<Event>>, i: nat, j: nat)
    requires Undisturbed(hash, r, g, others) && AllSucceed(hash, r, g, others) && i < j < |others|
    ensures Result(hash, r, g, others, i) != Result(hash, r, g, others, j)
  {
    hide ReservedKeys, Result, AfterOwn, Reserved;
    CallsHandOut(hash, r, g, others, j);
    ReservedIsSorted(r, g);
    if j < |ReservedKeys(r, g)| {
      HandOutReserved(hash, r, g, others, j);
    } else {
      HandOutFresh(hash, r, g, others, j);
      assert Result(hash, r, g, others, i).value in Results(hash, r, g, others, j);
    }
  }

  /** Repeating a reconciliation that succeeded returns the same instances and takes no new lock. */
  lemma RepeatIsStable(hash: Hashable -> string, r: Registry, g: Group, others: seq<seq<Event>>, again: seq<seq<Event>>)
    requires Undisturbed(hash, r, g, others) && AllSucceed(hash, r, g, others)
    requires |again| == |others| && Undisturbed(hash, AfterOwn(hash, r, g, others, |others|), g, again)
    requires !g.template.mode.StandBy?
    ensures var r' := AfterOwn(hash, r, g, others, |others|);
            && (forall i | 0 <= i < |again| :: !TakesLock(BeforeOwn(hash, r', g, again, i), g, i))
            && AllSucceed(hash, r', g, again)
            && Results(hash, r', g, again, |again|) == Results(hash, r, g, others, |others|)
  {
    hide ReservedKeys, Result, AfterOwn, BeforeOwn, Results, Reserved, Adopted;
    var n := |others|;
    var r' := AfterOwn(hash, r, g, others, n);
    CallsHandOut(hash, r, g, others, n);
    assert n <= |ReservedKeys(r', g)|;
    forall i | 0 <= i < n
      ensures !TakesLock(BeforeOwn(hash, r', g, again, i), g, i)
                && Result(hash, r', g, again, i) == Some(Sorted(ReservedKeys(r', g))[i])
    {
      RepeatedCall(hash, r', g, again, i);
    }
    PrefixesAgree(hash, r, g, others, r', again);
  }

  lemma {:induction false} RepeatedCall(hash: Hashable -> string, r: Registry, g: Group, others: seq<seq<Event>>,
                                        i: nat)
    requires i < |others| && i < |ReservedKeys(r, g)| && Undisturbed(hash, r, g, others) && !g.template.mode.StandBy?
    ensures !TakesLock(BeforeOwn(hash, r, g, others, i), g, i)
    ensures Result(hash, r, g, others, i) == Some(Sorted(ReservedKeys(r, g))[i])
    ensures ReservedKeys(AfterOwn(hash, r, g, others, i + 1), g) == ReservedKeys(r, g)
  {
    hide ReservedKeys, After, Sorted;
    if i > 0 {
      RepeatedCall(hash, r, g, others, i - 1);
    }
    SeenReservations(hash, r, g, others, i);
  }

  lemma PrefixesAgree(hash: Hashable -> string, r: Registry, g: Group, others: seq<seq<Event>>, r': Registry,
                      again: seq<seq<Event>>)
    requires |again| == |others| && r' == AfterOwn(hash, r, g, others, |others|)
    requires AllSucceed(hash, r, g, others)
    requires HandedOut(hash, r, g, others, |others|)
    requires |others| <= |ReservedKeys(r', g)|
    requires forall i | 0 <= i < |again| :: Result(hash, r', g, again, i) == Some(Sorted(ReservedKeys(r', g))[i])
    ensures Results(hash, r', g, again, |again|) == Results(hash, r, g, others, |others|)
  {
    hide ReservedKeys, Result, AfterOwn, Sorted;
    if |others| <= |ReservedKeys(r, g)| {
      assert forall i | 0 <= i < |again| :: Result(hash, r', g, again, i) == Result(hash, r, g, others, i);
    } else {
      ReservedIsSorted(r', g);
      PrefixResults(hash, r', g, again);
    }
  }

  lemma ResultsEmpty(hash: Hashable -> string, r: Registry, g: Group, others: seq<seq<Event>>)
    ensures Results(hash, r, g, others, 0) == {} && AfterOwn(hash, r, g, others, 0) == r
  {
  }

  lemma SortedOne(a: string)
    ensures Sorted({a}) == [a]
  {
    assert Ascending([a]) && Elements([a]) == {a};
    AscendingIsUnique([a], Sorted({a}));
  }

  lemma SortedTwo(a: string, b: string)
    requires Less(a, b)
    ensures Sorted({a, b}) == [a, b]
  {
    assert Ascending([a, b]) && Elements([a, b]) == {a, b};
    AscendingIsUnique([a, b], Sorted({a, b}));
  }

  /** Why a locked instance must not enter the group's scope: `a` was locked by the group and has
      been out of its cluster; it comes back between two calls, with a smaller key than `b`, and
      both calls return `b`. */
  lemma ReturningInstanceRepeats(hash: Hashable -> string, g: Group, a: TiDB, b: TiDB)
    requires !g.template.mode.StandBy? && SameScope(g, a) && SameScope(g, b) && !Forgets(a)
    requires Less(KeyOf(a), KeyOf(b))
    ensures var away := a.(cluster := g.cluster + "-old", resourceVersion := a.resourceVersion + "-old");
            var r := map[KeyOf(a) := Entry(away, Some(g)), KeyOf(b) := Entry(b, Some(g))];
            var others := [[], [Register(a)]];
            && !Harmless(r, g, Register(a))
            && Result(hash, r, g, others, 0) == Some(KeyOf(b)) == Result(hash, r, g, others, 1)
  {
    hide Sorted, Least, Less;
    var away := a.(cluster := g.cluster + "-old", resourceVersion := a.resourceVersion + "-old");
    var r := map[KeyOf(a) := Entry(away, Some(g)), KeyOf(b) := Entry(b, Some(g))];
    var others := [[], [Register(a)]];
    LessIrreflexive(KeyOf(a));
    assert |away.cluster| > |g.cluster| && |away.resourceVersion| > |a.resourceVersion|;
    assert ReservedKeys(r, g) == {KeyOf(b)};
    SortedOne(KeyOf(b));
    assert BeforeOwn(hash, r, g, others, 0) == r;
    assert AfterOwn(hash, r, g, others, 1) == r;
    var back := Registered(r, a);
    assert [Register(a)][..0] == [];
    assert After(hash, r, [Register(a)]) == back;
    assert BeforeOwn(hash, r, g, others, 1) == back;
    assert ReservedKeys(back, g) == {KeyOf(a), KeyOf(b)};
    SortedTwo(KeyOf(a), KeyOf(b));
  }
}
