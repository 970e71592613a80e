/** The poller turns repeated full listings into watch events. Whatever the order of its map
    iterations, a watcher that replays the events holds what the poller last saw. */
module PollerReplay {
  import opened Wrappers

  datatype Item = Item(name: string, version: string, invalid: bool, body: string)
  datatype Kind = Added | Modified | Deleted
  datatype Event = Event(kind: Kind, item: Item)
  type Names = map<string, Item>

  /** Deep equality, except for the resource version. */
  predicate Equal(a: Item, b: Item)
  {
    a.name == b.name && a.invalid == b.invalid && a.body == b.body
  }

  predicate Keyed(state: Names)
  {
    forall n | n in state :: state[n].name == n
  }

  /** The last item of each name. */
  function ByName(items: seq<Item>): Names
  {
    if items == [] then map[]
    else ByName(items[..|items| - 1])[items[|items| - 1].name := items[|items| - 1]]
  }

  lemma {:induction false} ByNameIsKeyed(items: seq<Item>)
    ensures Keyed(ByName(items))
  {
    if items != [] { ByNameIsKeyed(items[..|items| - 1]); }
  }

  /** A name is held if some item has it, with the last such item. */
  lemma {:induction false} ByNameHolds(items: seq<Item>, i: nat)
    requires i < |items|
    ensures items[i].name in ByName(items)
    ensures (forall j | i < j < |items| :: items[j].name != items[i].name) ==> ByName(items)[items[i].name] == items[i]
  {
    var n := |items| - 1;
    if i < n {
      ByNameHolds(items[..n], i);
      assert items[..n][i] == items[i];
      assert forall j | i < j < n :: items[..n][j] == items[j];
    }
  }

  lemma {:induction false} ByNameComesFrom(items: seq<Item>, n: string)
    requires n in ByName(items)
    ensures ByName(items)[n] in items
  {
    var last := items[|items| - 1];
    if n != last.name { ByNameComesFrom(items[..|items| - 1], n); }
    assert items == items[..|items| - 1] + [last];
  }

  // ---------------------------------------------------------------- the watcher

  function Apply(store: Names, e: Event): Names
  {
    if e.kind.Deleted? then store - {e.item.name} else store[e.item.name := e.item]
  }

  function Replay(store: Names, es: seq<Event>): Names
  {
    if es == [] then store else Apply(Replay(store, es[..|es| - 1]), es[|es| - 1])
  }

  lemma {:induction false} ReplayAppend(store: Names, xs: seq<Event>, ys: seq<Event>)
    ensures Replay(store, xs + ys) == Replay(Replay(store, xs), ys)
  {
    if ys == [] {
      assert xs + ys == xs;
    } else {
      assert (xs + ys)[..|xs + ys| - 1] == xs + ys[..|ys| - 1];
      ReplayAppend(store, xs, ys[..|ys| - 1]);
    }
  }

  function Lookup(m: Names, n: string): Option<Item> { if n in m then Some(m[n]) else None }

  predicate AtMostOnce(es: seq<Event>)
  {
    forall i, j | 0 <= i < j < |es| :: es[i].item.name != es[j].item.name
  }

  lemma {:induction false} ReplayUnmentioned(store: Names, es: seq<Event>, n: string)
    requires forall e | e in es :: e.item.name != n
    ensures Lookup(Replay(store, es), n) == Lookup(store, n)
  {
    if es != [] { ReplayUnmentioned(store, es[..|es| - 1], n); }
  }

  lemma {:induction false} ReplayMentioned(store: Names, es: seq<Event>, i: nat)
    requires AtMostOnce(es) && i < |es|
    ensures Lookup(Replay(store, es), es[i].item.name) == if es[i].kind.Deleted? then None else Some(es[i].item)
  {
    if i < |es| - 1 {
      ReplayMentioned(store, es[..|es| - 1], i);
      assert es[..|es| - 1][i] == es[i];
    }
  }

  // ---------------------------------------------------------------- what a poll reports

  /** The event that tells a watcher of `prev` what `cur` holds under `n`. */
  function Due(prev: Names, cur: Names, n: string): Option<Event>
  {
    if n in cur then
      if n !in prev then Some(Event(Added, cur[n]))
      else if Equal(prev[n], cur[n]) then None else Some(Event(Modified, cur[n]))
    else if n in prev then Some(Event(Deleted, prev[n]))
    else None
  }

  /** Some of the due events, in any order: one at most for each name and none for equal items. */
  ghost predicate ReportsPart(prev: Names, cur: Names, es: seq<Event>)
  {
    AtMostOnce(es) && forall e | e in es :: Due(prev, cur, e.item.name) == Some(e)
  }

  /** Exactly the due events. */
  ghost predicate Reports(prev: Names, cur: Names, es: seq<Event>)
  {
    ReportsPart(prev, cur, es) && forall n :: Due(prev, cur, n).Some? ==> Due(prev, cur, n).value in es
  }

  /** The same names, with items equal up to their versions. */
  predicate Matches(store: Names, state: Names)
  {
    store.Keys == state.Keys && forall n | n in store :: Equal(store[n], state[n])
  }

  lemma ReplayAt(prev: Names, cur: Names, es: seq<Event>, store: Names, n: string)
    requires Keyed(prev) && Keyed(cur) && Reports(prev, cur, es)
    ensures Lookup(Replay(store, es), n) ==
              match Due(prev, cur, n)
              case None => Lookup(store, n)
              case Some(e) => if e.kind.Deleted? then None else Some(e.item)
  {
    var d := Due(prev, cur, n);
    if d.Some? {
      assert d.value in es && d.value.item.name == n;
      var i :| 0 <= i < |es| && es[i] == d.value;
      ReplayMentioned(store, es, i);
    } else {
      ReplayUnmentioned(store, es, n);
    }
  }

  lemma LookupExtensional(l: Names, r: Names)
    requires forall n :: Lookup(l, n) == Lookup(r, n)
    ensures l == r
  {
    assert forall n :: n in l <==> Lookup(l, n).Some?;
    assert forall n :: n in r <==> Lookup(r, n).Some?;
    assert l.Keys == r.Keys;
    assert forall n | n in l :: Lookup(l, n) == Some(l[n]) && Lookup(r, n) == Some(r[n]);
  }

  /** Replaying a report keeps the watcher in step. */
  lemma ReplayReport(prev: Names, cur: Names, es: seq<Event>, store: Names)
    requires Keyed(prev) && Keyed(cur) && Reports(prev, cur, es) && Matches(store, prev)
    ensures Matches(Replay(store, es), cur)
  {
    hide Reports, Replay;
    var after := Replay(store, es);
    forall n ensures n in after <==> n in cur ensures n in cur ==> Equal(after[n], cur[n]) {
      ReplayAt(prev, cur, es, store, n);
      assert n in after <==> Lookup(after, n).Some?;
    }
  }

  /** A watcher that misses some of a report holds under every name what it held, or what is there now. */
  lemma ReplayPart(prev: Names, cur: Names, es: seq<Event>, store: Names, n: string)
    requires Keyed(prev) && Keyed(cur) && ReportsPart(prev, cur, es)
    ensures Lookup(Replay(store, es), n) == Lookup(store, n) || Lookup(Replay(store, es), n) == Lookup(cur, n)
  {
    if i: int :| 0 <= i < |es| && es[i].item.name == n {
      assert es[i] in es;
      ReplayMentioned(store, es, i);
    } else {
      forall e | e in es ensures e.item.name != n {
        var i :| 0 <= i < |es| && es[i] == e;
      }
      ReplayUnmentioned(store, es, n);
    }
  }

  /** The order in which a report is sent makes no difference. */
  lemma OrderIsIrrelevant(prev: Names, cur: Names, xs: seq<Event>, ys: seq<Event>, store: Names)
    requires Keyed(prev) && Keyed(cur) && Reports(prev, cur, xs) && Reports(prev, cur, ys)
    ensures Replay(store, xs) == Replay(store, ys)
  {
    hide Reports, Replay, Lookup;
    forall n ensures Lookup(Replay(store, xs), n) == Lookup(Replay(store, ys), n) {
      ReplayAt(prev, cur, xs, store, n);
      ReplayAt(prev, cur, ys, store, n);
    }
    LookupExtensional(Replay(store, xs), Replay(store, ys));
  }

  /** A watcher is told nothing exactly when the state it holds is still right. */
  lemma SilentExactly(prev: Names, cur: Names, es: seq<Event>)
    requires Reports(prev, cur, es)
    ensures es == [] <==> Matches(prev, cur)
  {
    if es == [] {
      forall n ensures n in prev <==> n in cur ensures n in prev ==> Equal(prev[n], cur[n]) {
        assert Due(prev, cur, n).None?;
      }
    } else {
      assert Due(prev, cur, es[0].item.name) == Some(es[0]);
    }
  }

  /** What a poll sends, name by name: what is new, what is gone, and what differs in more than its version. */
  lemma ChangesAreSent(prev: Names, cur: Names, es: seq<Event>, n: string)
    requires Keyed(prev) && Keyed(cur) && Reports(prev, cur, es)
    ensures n in cur && n !in prev ==> Event(Added, cur[n]) in es
    ensures n in prev && n !in cur ==> Event(Deleted, prev[n]) in es
    ensures n in prev && n in cur && (prev[n].body != cur[n].body || prev[n].invalid != cur[n].invalid) ==>
              Event(Modified, cur[n]) in es
    ensures n in prev && n in cur && prev[n].body == cur[n].body && prev[n].invalid == cur[n].invalid ==>
              forall e | e in es :: e.item.name != n
    ensures n !in prev && n !in cur ==> forall e | e in es :: e.item.name != n
  {
    var d := Due(prev, cur, n);
    forall e | e in es && e.item.name == n ensures d == Some(e) {
    }
  }

  // ---------------------------------------------------------------- whole runs

  datatype Poll = Listed(items: seq<Item>) | Failed

  /** A failed listing marks every item, which keeps its version. */
  function Marked(state: Names): Names { map n | n in state :: state[n].(invalid := true) }

  function Next(state: Names, p: Poll): Names { if p.Failed? then Marked(state) else ByName(p.items) }

  function StateAfter(state: Names, polls: seq<Poll>): Names
  {
    if polls == [] then state else Next(StateAfter(state, polls[..|polls| - 1]), polls[|polls| - 1])
  }

  function Flatten(batches: seq<seq<Event>>): seq<Event>
  {
    if batches == [] then [] else Flatten(batches[..|batches| - 1]) + batches[|batches| - 1]
  }

  ghost predicate IsRun(state: Names, polls: seq<Poll>, batches: seq<seq<Event>>)
  {
    && |polls| == |batches|
    && forall i | 0 <= i < |polls| ::
         Reports(StateAfter(state, polls[..i]), StateAfter(state, polls[..i + 1]), batches[i])
  }

  lemma StaysKeyed(state: Names, p: Poll)
    requires Keyed(state)
    ensures Keyed(Next(state, p))
  {
    if p.Listed? { ByNameIsKeyed(p.items); }
  }

  lemma {:induction false} AlwaysKeyed(state: Names, polls: seq<Poll>)
    requires Keyed(state)
    ensures Keyed(StateAfter(state, polls))
  {
    if polls != [] {
      AlwaysKeyed(state, polls[..|polls| - 1]);
      StaysKeyed(StateAfter(state, polls[..|polls| - 1]), polls[|polls| - 1]);
    }
  }

  /** A run is a shorter one and a last poll. */
  lemma LastPoll(state: Names, polls: seq<Poll>, batches: seq<seq<Event>>)
    requires IsRun(state, polls, batches) && polls != []
    ensures var n := |polls| - 1;
            && IsRun(state, polls[..n], batches[..n])
            && Reports(StateAfter(state, polls[..n]), StateAfter(state, polls), batches[n])
  {
    hide Reports, StateAfter;
    var n := |polls| - 1;
    forall i | 0 <= i < n
      ensures Reports(StateAfter(state, polls[..n][..i]), StateAfter(state, polls[..n][..i + 1]), batches[..n][i])
    {
      assert polls[..n][..i] == polls[..i] && polls[..n][..i + 1] == polls[..i + 1];
    }
    assert polls[..n + 1] == polls;
  }

  /** Over every sequence of successful and failed polls, the events replayed on the listing that
      was synced give what the poller holds. */
  lemma {:induction false} ReplayRun(listed: seq<Item>, polls: seq<Poll>, batches: seq<seq<Event>>)
    requires IsRun(ByName(listed), polls, batches)
    ensures Matches(Replay(ByName(listed), Flatten(batches)), StateAfter(ByName(listed), polls))
  {
    hide Reports, Keyed, ByName;
    var start := ByName(listed);
    if polls != [] {
      var n := |polls| - 1;
      LastPoll(start, polls, batches);
      ReplayRun(listed, polls[..n], batches[..n]);
      ByNameIsKeyed(listed);
      AlwaysKeyed(start, polls[..n]);
      AlwaysKeyed(start, polls);
      ReplayReport(StateAfter(start, polls[..n]), StateAfter(start, polls), batches[n],
                   Replay(start, Flatten(batches[..n])));
      ReplayAppend(start, Flatten(batches[..n]), batches[n]);
    }
  }

  /** The item is the last of its name. */
  predicate LastOfName(items: seq<Item>, i: nat)
  {
    i < |items| && forall j | i < j < |items| :: items[j].name != items[i].name
  }

  /** So a watcher holds every item that the last listing gave, with its content, and no other; and once the
      last listing failed, each of them marked invalid. */
  lemma WatcherHolds(listed: seq<Item>, polls: seq<Poll>, batches: seq<seq<Event>>)
    requires IsRun(ByName(listed), polls, batches) && polls != []
    ensures var held, last := Replay(ByName(listed), Flatten(batches)), polls[|polls| - 1];
            var before := StateAfter(ByName(listed), polls[..|polls| - 1]);
            && (last.Listed? ==>
                  && (forall n :: n in held <==> exists x :: x in last.items && x.name == n)
                  && forall i: nat | LastOfName(last.items, i) ::
                       var x := last.items[i];
                       x.name in held && held[x.name].body == x.body && held[x.name].invalid == x.invalid)
            && (last.Failed? ==>
                  held.Keys == before.Keys && forall n | n in held :: held[n].invalid && held[n].body == before[n].body)
  {
    hide IsRun, Replay, Flatten, Matches, ByName, LastOfName;
    ReplayRun(listed, polls, batches);
    var held, last := Replay(ByName(listed), Flatten(batches)), polls[|polls| - 1];
    if last.Listed? {
      ListingIsHeld(last.items, held);
    } else {
      MarksAreHeld(StateAfter(ByName(listed), polls[..|polls| - 1]), held);
    }
  }

  lemma ListingIsHeld(items: seq<Item>, held: Names)
    requires Matches(held, ByName(items))
    ensures forall n :: n in held <==> exists x :: x in items && x.name == n
    ensures forall i: nat | LastOfName(items, i) ::
              var x := items[i];
              x.name in held && held[x.name].body == x.body && held[x.name].invalid == x.invalid
  {
    hide ByName;
    ByNameIsKeyed(items);
    forall n ensures n in held <==> exists x :: x in items && x.name == n {
      if n in held { ByNameComesFrom(items, n); }
      if x :| x in items && x.name == n {
        var i :| 0 <= i < |items| && items[i] == x;
        ByNameHolds(items, i);
      }
    }
    forall i: nat | LastOfName(items, i) ensures items[i].name in held && Equal(held[items[i].name], items[i]) {
      ByNameHolds(items, i);
    }
  }

  lemma MarksAreHeld(before: Names, held: Names)
    requires Matches(held, Marked(before))
    ensures held.Keys == before.Keys && forall n | n in held :: held[n].invalid && held[n].body == before[n].body
  {
  }

  // ---------------------------------------------------------------- the poller

  class Poller {
    var started: bool
    /** Whether the context of the run was cancelled. */
    var stopping: bool
    var state: Names
    /** The events accepted for the watcher. */
    var sent: seq<Event>
    /** What the watcher was given by the last `Sync`. */
    ghost var synced: Names

    ghost predicate Valid()
      reads this
    {
      && Keyed(state) && (!stopping ==> Matches(Replay(synced, sent), state))
      && (!started ==> sent == [] && !stopping)
    }

    constructor ()
      ensures Valid() && !started && state == map[]
    {
      started, stopping, state, sent, synced := false, false, map[], [], map[];
    }

    /** The context may be cancelled at any time, once and for all. */
    method CheckContext()
      modifies `stopping
      ensures old(stopping) ==> stopping
    {
      var cancelled: bool := *;
      stopping := stopping || cancelled;
    }

    method NewState(items: seq<Item>) returns (s: Names)
      ensures s == ByName(items) && Keyed(s)
    {
      s := map[];
      for i := 0 to |items|
        invariant s == ByName(items[..i])
      {
        assert items[..i + 1][..i] == items[..i];
        s := s[items[i].name := items[i]];
      }
      assert items[..|items|] == items;
      ByNameIsKeyed(items);
    }

    /** Sends an event, or drops it once the context is cancelled: either may be picked then. */
    method SendEvent(e: Event)
      modifies `sent, `stopping
      ensures old(stopping) ==> stopping
      ensures sent == old(sent) + [e] || (stopping && sent == old(sent))
    {
      CheckContext();
      var drop: bool := *;
      if stopping && drop { return; }
      sent := sent + [e];
    }

    /** Lists once before the watch starts; `listing` is `None` if the listing fails. */
    method Sync(listing: Option<seq<Item>>) returns (list: Option<seq<Item>>)
      requires Valid()
      modifies this
      ensures Valid() && started == old(started)
      ensures list == if old(started) then None else listing
      ensures list.None? ==>
                state == old(state) && sent == old(sent) && synced == old(synced) && stopping == old(stopping)
      ensures list.Some? ==> state == synced == ByName(list.value) && sent == []
    {
      if started || listing.None? { return None; }
      var s := NewState(listing.value);
      UpdateState(s, false);
      synced := state;
      return listing;
    }

    method UpdateState(newState: Names, sendEvent: bool)
      requires Keyed(state) && Keyed(newState)
      modifies `state, `sent, `stopping
      ensures state == newState
      ensures !sendEvent ==> sent == old(sent) && stopping == old(stopping)
      ensures sendEvent ==> Told(old(state), newState, old(sent), old(stopping), sent, stopping)
    {
      var oldState := state;
      state := newState;
      if sendEvent { GenerateEvents(oldState, newState); }
    }

    /** What was sent, before and after: part of the report, and all of it unless the poller is stopping. */
    ghost static predicate Told(prev: Names, cur: Names, before: seq<Event>, stopped: bool, after: seq<Event>,
                                stops: bool)
    {
      && (stopped ==> stops)
      && before <= after && ReportsPart(prev, cur, after[|before|..])
      && (!stops ==> Reports(prev, cur, after[|before|..]))
    }

    /** Events that are due for the names in `seen`: all of them if `whole`. */
    ghost static predicate ReportsOn(prev: Names, cur: Names, seen: set<string>, es: seq<Event>, whole: bool)
    {
      && AtMostOnce(es)
      && (forall e | e in es :: e.item.name in seen && Due(prev, cur, e.item.name) == Some(e))
      && (whole ==> forall n | n in seen && Due(prev, cur, n).Some? :: Due(prev, cur, n).value in es)
    }

    static lemma ReportsOneMore(prev: Names, cur: Names, seen: set<string>, es: seq<Event>, whole: bool, n: string,
                                sent: bool, still: bool)
      requires Keyed(prev) && Keyed(cur) && ReportsOn(prev, cur, seen, es, whole) && n !in seen
      requires (still ==> whole) && (sent ==> Due(prev, cur, n).Some?)
      requires sent || Due(prev, cur, n).None? || !still
      ensures ReportsOn(prev, cur, seen + {n}, if sent then es + [Due(prev, cur, n).value] else es, still)
    {
      if sent {
        var fs := es + [Due(prev, cur, n).value];
        assert forall i | 0 <= i < |es| :: fs[i] == es[i] && fs[i] in es;
        assert forall e | e in es :: e in fs;
      }
    }

    static lemma ReportsAll(prev: Names, cur: Names, before: seq<Event>, stopped: bool, es: seq<Event>, stops: bool)
      requires ReportsOn(prev, cur, cur.Keys + prev.Keys, es, !stops) && (stopped ==> stops)
      ensures Told(prev, cur, before, stopped, before + es, stops)
    {
      assert (before + es)[|before|..] == es;
      assert forall n :: Due(prev, cur, n).Some? ==> n in cur.Keys + prev.Keys;
    }

    /** Sends the event that is due for `n`. */
    method Tell(e: Event, ghost prev: Names, ghost cur: Names, ghost seen: set<string>, ghost es: seq<Event>)
      returns (ghost es': seq<Event>)
      requires Keyed(prev) && Keyed(cur) && ReportsOn(prev, cur, seen, es, !stopping)
      requires e.item.name !in seen && Due(prev, cur, e.item.name) == Some(e)
      modifies `sent, `stopping
      ensures old(stopping) ==> stopping
      ensures ReportsOn(prev, cur, seen + {e.item.name}, es', !stopping)
      ensures forall start | old(sent) == start + es :: sent == start + es'
    {
      hide ReportsOn, Due;
      ghost var whole, before := !stopping, sent;
      SendEvent(e);
      ghost var delivered := sent != before;
      ReportsOneMore(prev, cur, seen, es, whole, e.item.name, delivered, !stopping);
      es' := if delivered then es + [e] else es;
    }

    method GenerateEvents(prevState: Names, curState: Names)
      requires Keyed(prevState) && Keyed(curState)
      modifies `sent, `stopping
      ensures Told(prevState, curState, old(sent), old(stopping), sent, stopping)
    {
      hide Told, ReportsOn;
      ghost var start := sent;
      ghost var es: seq<Event> := [];
      ghost var seen: set<string> := {};
      NothingReported(prevState, curState, !stopping);
      var left := curState.Keys;
      while left != {}
        invariant left <= curState.Keys && seen == curState.Keys - left && (old(stopping) ==> stopping)
        invariant sent == start + es && ReportsOn(prevState, curState, seen, es, !stopping)
      {
        var n :| n in left;
        left := left - {n};
        var obj := curState[n];
        if obj.name in prevState {
          if Equal(prevState[obj.name], obj) {
            ReportsOneMore(prevState, curState, seen, es, !stopping, n, false, !stopping);
            seen := seen + {n};
            continue;
          }
          es := Tell(Event(Modified, obj), prevState, curState, seen, es);
        } else {
          es := Tell(Event(Added, obj), prevState, curState, seen, es);
        }
        seen := seen + {n};
      }
      // Names still listed are already seen: nothing more is due for them.
      left := prevState.Keys;
      while left != {}
        invariant left <= prevState.Keys && seen == curState.Keys + (prevState.Keys - left)
                    && (old(stopping) ==> stopping)
        invariant sent == start + es && ReportsOn(prevState, curState, seen, es, !stopping)
      {
        var n :| n in left;
        left := left - {n};
        if n !in curState {
          es := Tell(Event(Deleted, prevState[n]), prevState, curState, seen, es);
          seen := seen + {n};
        }
      }
      assert seen == curState.Keys + prevState.Keys;
      ReportsAll(prevState, curState, start, old(stopping), es, stopping);
    }

    static lemma NothingReported(prev: Names, cur: Names, whole: bool)
      ensures ReportsOn(prev, cur, {}, [], whole)
    {
    }

    /** Marks each item that is not yet invalid and tells the watcher of it. */
    method MarkStateInvalid()
      requires Keyed(state)
      modifies `state, `sent, `stopping
      ensures state == Marked(old(state)) && Told(old(state), state, old(sent), old(stopping), sent, stopping)
    {
      hide Told, ReportsOn;
      ghost var start, prev := sent, state;
      ghost var es: seq<Event> := [];
      ghost var seen: set<string> := {};
      NothingReported(prev, Marked(prev), !stopping);
      var left := state.Keys;
      while left != {}
        invariant left <= prev.Keys && seen == prev.Keys - left && (old(stopping) ==> stopping)
        invariant state.Keys == prev.Keys
        invariant forall n | n in prev :: state[n] == if n in left then prev[n] else Marked(prev)[n]
        invariant sent == start + es && ReportsOn(prev, Marked(prev), seen, es, !stopping)
      {
        var n :| n in left;
        left := left - {n};
        var v := state[n];
        if !v.invalid {
          v := v.(invalid := true);
          state := state[n := v];
          es := Tell(Event(Modified, v), prev, Marked(prev), seen, es);
        } else {
          ReportsOneMore(prev, Marked(prev), seen, es, !stopping, n, false, !stopping);
        }
        seen := seen + {n};
      }
      assert state == Marked(prev);
      assert seen == Marked(prev).Keys + prev.Keys;
      ReportsAll(prev, state, start, old(stopping), es, stopping);
    }

    /** One poll. The watcher is told all of the report unless the poller is stopping by the end of it,
        and part of it then; a listing that fails while it is stopping changes nothing. */
    method Poll(listing: Option<seq<Item>>)
      requires Valid() && started
      modifies `state, `sent, `stopping
      ensures Valid()
      ensures Told(old(state), state, old(sent), old(stopping), sent, stopping)
      ensures state == Next(old(state), if listing.None? then Failed else Listed(listing.value))
              || (stopping && listing.None? && state == old(state) && sent == old(sent))
      ensures old(stopping) && listing.None? ==> state == old(state) && sent == old(sent)
    {
      hide Told, Marked, ByName, Replay, Matches;
      if listing.None? {
        CheckContext();
        if stopping {
          NothingTold(state, sent, old(stopping));
          return;
        }
        MarkStateInvalid();
      } else {
        var s := NewState(listing.value);
        UpdateState(s, true);
      }
      StaysKeyed(old(state), if listing.None? then Failed else Listed(listing.value));
      if !stopping {
        ToldIsReplayed(old(state), state, synced, old(sent), old(stopping), sent);
      }
    }

    static lemma NothingTold(state: Names, sent: seq<Event>, stopped: bool)
      ensures Told(state, state, sent, stopped, sent, true)
    {
    }

    static lemma ToldIsReplayed(prev: Names, cur: Names, synced: Names, before: seq<Event>, stopped: bool,
                                after: seq<Event>)
      requires Keyed(prev) && Keyed(cur) && Matches(Replay(synced, before), prev)
      requires Told(prev, cur, before, stopped, after, false)
      ensures Matches(Replay(synced, after), cur)
    {
      hide Reports, ReportsPart, Replay, Matches;
      var es := after[|before|..];
      assert after == before + es;
      ReplayAppend(synced, before, es);
      ReplayReport(prev, cur, es, Replay(synced, before));
    }

    method Start()
      requires Valid()
      modifies `started
      ensures Valid() && started
    {
      started := true;
    }
  }
}
