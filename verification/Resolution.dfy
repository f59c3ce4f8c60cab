/** The two-pass state-resolution algorithm and its cache. */
module Resolution {
  import opened Basics
  import opened ByteOrder
  import opened RoomEvents
  import opened AuthRules
  import opened Forks
  import opened StateCache
  import PowerSort
  import PowerHeap
  import MainlineOrder

  predicate IsControlEvent(event: Event) {
    event.eventType in {POWER_LEVELS_TYPE, JOIN_RULES_TYPE, MEMBER_TYPE}
  }

  function ControlOf(full: set<EventId>, store: EventStore): set<EventId> {
    set id | id in full && id in store && IsControlEvent(store[id])
  }

  function OthersOf(full: set<EventId>, store: EventStore): set<EventId> {
    set id | id in full && id in store && !IsControlEvent(store[id])
  }

  function PowerLevelsEvent(state: StateMap): Option<EventId> {
    if POWER_LEVELS_SLOT in state then Some(state[POWER_LEVELS_SLOT]) else None
  }

  // ---------------------------------------------------------------- specification

  /** The order in which the full conflicted set is judged over the agreed state. */
  ghost function JudgingOrder(agreed: StateMap, full: set<EventId>, store: EventStore, rules: Rules): seq<EventId>
    requires MainlineOrder.LinksAcyclic(store)
  {
    var control := PowerSort.PowerOrder(ControlOf(full, store), store);
    var partial := Fold(control, agreed, store, rules);
    control + MainlineOrder.OrderOf(OthersOf(full, store), PowerLevelsEvent(partial), store)
  }

  ghost function WorkingState(agreed: StateMap, full: set<EventId>, store: EventStore, rules: Rules): StateMap
    requires MainlineOrder.LinksAcyclic(store)
  {
    Fold(JudgingOrder(agreed, full, store, rules), agreed, store, rules)
  }

  function Restrict(state: StateMap, slots: set<Slot>): StateMap {
    map slot | slot in slots && slot in state :: state[slot]
  }

  ghost function Disputed(forks: set<StateMap>): set<EventId> {
    ConflictingEventIds(Conflicted(forks))
  }

  ghost function FullSet(forks: set<StateMap>, chains: set<set<EventId>>): set<EventId> {
    Disputed(forks) + AuthDifference(chains)
  }

  /** The value the disputed slots take, as a function of the sets of forks and of auth chains. */
  ghost function ResolvedSlots(forks: set<StateMap>, chains: set<set<EventId>>, store: EventStore, rules: Rules): StateMap
    requires MainlineOrder.LinksAcyclic(store)
  {
    Restrict(WorkingState(Unconflicted(forks), FullSet(forks, chains), store, rules), Conflicted(forks).Keys)
  }

  /** What a fresh computation returns, as a function of the sets of forks and of auth chains. */
  ghost function Resolved(forks: set<StateMap>, chains: set<set<EventId>>, store: EventStore, rules: Rules): StateMap
    requires MainlineOrder.LinksAcyclic(store)
  {
    if Conflicted(forks) == map[] then Unconflicted(forks)
    else Unconflicted(forks) + ResolvedSlots(forks, chains, store, rules)
  }

  // ---------------------------------------------------------------- the two passes

  /** A power-levels, join-rules or member event. */
  ghost predicate Controls(id: EventId, store: EventStore) {
    id in store && store[id].eventType in {"m.room.power_levels", "m.room.join_rules", "m.room.member"}
  }

  ghost function ControllingIds(full: set<EventId>, store: EventStore): set<EventId> {
    set id | id in full && Controls(id, store)
  }

  ghost function OtherIds(full: set<EventId>, store: EventStore): set<EventId> {
    set id | id in full && id in store && !Controls(id, store)
  }

  /** The power-levels event a state holds. */
  ghost predicate Anchors(anchor: Option<EventId>, state: StateMap) {
    match anchor
    case Some(id) => ("m.room.power_levels", "") in state && state[("m.room.power_levels", "")] == id
    case None => ("m.room.power_levels", "") !in state
  }

  /** First the control events in power order, then the other stored events in mainline order,
      anchored on the power-levels event that the first pass left in force. */
  ghost predicate TwoPasses(n: nat, order: seq<EventId>, agreed: StateMap, full: set<EventId>, store: EventStore, rules: Rules)
    requires MainlineOrder.LinksAcyclic(store)
  {
    && n <= |order|
    && PowerSort.IsPowerOrder(order[..n], ControllingIds(full, store), store)
    && exists anchor ::
         && Anchors(anchor, Fold(order[..n], agreed, store, rules))
         && MainlineOrder.IsMainlineOrder(order[n..], multiset(OtherIds(full, store)), anchor, store)
  }

  lemma PassesAre(full: set<EventId>, store: EventStore)
    ensures ControlOf(full, store) == ControllingIds(full, store)
    ensures OthersOf(full, store) == OtherIds(full, store)
  {
  }

  lemma JudgedInTwoPasses(agreed: StateMap, full: set<EventId>, store: EventStore, rules: Rules)
    requires MainlineOrder.LinksAcyclic(store)
    ensures exists n :: TwoPasses(n, JudgingOrder(agreed, full, store, rules), agreed, full, store, rules)
  {
    PassesAre(full, store);
    var control := PowerSort.PowerOrder(ControlOf(full, store), store);
    var partial := Fold(control, agreed, store, rules);
    var anchor := PowerLevelsEvent(partial);
    var others := MainlineOrder.OrderOf(OthersOf(full, store), anchor, store);
    var order := JudgingOrder(agreed, full, store, rules);
    assert order[..|control|] == control && order[|control|..] == others;
    assert Anchors(anchor, partial);
    assert TwoPasses(|control|, order, agreed, full, store, rules);
  }

  /** Where the second pass starts. */
  lemma SplitAt(agreed: StateMap, full: set<EventId>, store: EventStore, rules: Rules) returns (n: nat)
    requires MainlineOrder.LinksAcyclic(store)
    ensures var order := JudgingOrder(agreed, full, store, rules);
            && n <= |order| && order[..n] == PowerSort.PowerOrder(ControlOf(full, store), store)
            && (forall k | 0 <= k < n :: Controls(order[k], store))
            && (forall k | n <= k < |order| :: !Controls(order[k], store))
  {
    PassesAre(full, store);
    var control := PowerSort.PowerOrder(ControlOf(full, store), store);
    var others := MainlineOrder.OrderOf(OthersOf(full, store), PowerLevelsEvent(Fold(control, agreed, store, rules)), store);
    ControlOrderMembers(full, store);
    OrderMembers(others, OthersOf(full, store));
    n := |control|;
    forall k | 0 <= k < n ensures Controls(control[k], store) {
      assert control[k] in control;
    }
    forall k | 0 <= k < |others| ensures !Controls(others[k], store) {
      assert others[k] in Elements(others);
    }
  }

  /** No other event is judged before a control event. */
  lemma ControlFirst(agreed: StateMap, full: set<EventId>, store: EventStore, rules: Rules, i: nat, j: nat)
    requires MainlineOrder.LinksAcyclic(store)
    requires i < j < |JudgingOrder(agreed, full, store, rules)|
    requires Controls(JudgingOrder(agreed, full, store, rules)[j], store)
    ensures Controls(JudgingOrder(agreed, full, store, rules)[i], store)
  {
    var n := SplitAt(agreed, full, store, rules);
  }

  /** Two control events that wait for nothing between them are judged by power. */
  lemma ControlByPower(agreed: StateMap, full: set<EventId>, store: EventStore, rules: Rules, i: nat, j: nat)
    requires MainlineOrder.LinksAcyclic(store)
    requires i < j < |JudgingOrder(agreed, full, store, rules)|
    requires var order := JudgingOrder(agreed, full, store, rules);
             && Controls(order[j], store)
             && forall a | a in store[order[j]].auth && a in full && Controls(a, store) :: a in order[..i]
    ensures var order := JudgingOrder(agreed, full, store, rules);
            order[i] in store && PowerSort.Outranks(order[i], order[j], store)
  {
    var n := SplitAt(agreed, full, store, rules);
    PassesAre(full, store);
    var order, controlSet := JudgingOrder(agreed, full, store, rules), ControlOf(full, store);
    var control := PowerSort.PowerOrder(controlSet, store);
    assert control[i] == order[i] && control[j] == order[j] && control[..i] == order[..i];
    PowerSort.PowerOrderIff(control, controlSet, store);
    assert PowerSort.AuthPlaced(control[j], control[..i], controlSet, store);
  }

  /** Two rival join rules that do not depend on each other: the one that outranks the other is judged
      first, so the other has the last word. */
  lemma RivalJoinRules(agreed: StateMap, x: EventId, y: EventId, store: EventStore, rules: Rules)
    requires MainlineOrder.LinksAcyclic(store)
    requires x in store && y in store && x != y
    requires store[x].eventType == "m.room.join_rules" == store[y].eventType
    requires x !in store[x].auth && x !in store[y].auth && y !in store[x].auth && y !in store[y].auth
    requires PowerSort.Outranks(x, y, store)
    ensures JudgingOrder(agreed, {x, y}, store, rules) == [x, y]
  {
    var both := {x, y};
    PassesAre(both, store);
    assert ControlOf(both, store) == both && OthersOf(both, store) == {};
    var control := PowerSort.PowerOrder(both, store);
    PowerSort.PowerOrderIff([x, y], both, store);
    assert PowerSort.RankedRun([x, y], both, store);
    PowerSort.PowerOrderUnique(control, [x, y], both, store);
    var others := MainlineOrder.OrderOf({}, PowerLevelsEvent(Fold(control, agreed, store, rules)), store);
    assert |others| == |multiset(others)| == 0;
    assert [x, y] + others == [x, y];
  }

  // ---------------------------------------------------------------- provenance

  lemma {:induction false} FoldConcat(a: seq<EventId>, b: seq<EventId>, base: StateMap, store: EventStore, rules: Rules)
    ensures Fold(a + b, base, store, rules) == Fold(b, Fold(a, base, store, rules), store, rules)
    decreases |b|
  {
    if b == [] {
      assert a + b == a;
    } else {
      var n := |b| - 1;
      FoldConcat(a, b[..n], base, store, rules);
      assert (a + b)[..|a + b| - 1] == a + b[..n];
    }
  }

  lemma ControlOrderMembers(full: set<EventId>, store: EventStore)
    ensures var out := PowerSort.PowerOrder(ControlOf(full, store), store);
            Distinct(out) && forall id | id in out :: id in ControlOf(full, store)
  {
    var control := ControlOf(full, store);
    var out := PowerSort.PowerOrder(control, store);
    forall i, j | 0 <= i < j < |out| ensures out[i] != out[j] {
      PowerSort.PowerOrderTopological(out, j, control, store);
      assert out[i] == out[..j][i];
    }
    forall id | id in out ensures id in control {
      var k :| 0 <= k < |out| && out[k] == id;
      PowerSort.PowerOrderTopological(out, k, control, store);
    }
  }

  lemma OrderMembers(out: seq<EventId>, others: set<EventId>)
    requires multiset(out) == multiset(others)
    ensures Distinct(out) && Elements(out) == others
  {
    forall i, j | 0 <= i < j < |out| ensures out[i] != out[j] {
      if out[i] == out[j] {
        RepeatCount(out, i, j);
      }
    }
    forall id ensures id in Elements(out) <==> id in others {
      assert id in out <==> id in multiset(out);
    }
  }

  /** Only stored events of the full conflicted set are judged, each at most once; on an acyclic auth
      graph each is judged exactly once. */
  lemma JudgedEvents(agreed: StateMap, full: set<EventId>, store: EventStore, rules: Rules)
    requires MainlineOrder.LinksAcyclic(store)
    ensures var order := JudgingOrder(agreed, full, store, rules);
            && Distinct(order)
            && (forall id | id in order :: id in full && id in store)
            && (PowerSort.AcyclicWithin(store.Keys, store) ==> forall id | id in full && id in store :: id in order)
  {
    var controlSet, othersSet := ControlOf(full, store), OthersOf(full, store);
    var control := PowerSort.PowerOrder(controlSet, store);
    var partial := Fold(control, agreed, store, rules);
    var others := MainlineOrder.OrderOf(othersSet, PowerLevelsEvent(partial), store);
    ControlOrderMembers(full, store);
    OrderMembers(others, othersSet);
    if PowerSort.AcyclicWithin(store.Keys, store) {
      AcyclicSubset(controlSet, store);
      PowerSort.CompleteIffAcyclic(control, controlSet, store);
    }
    assert forall id :: id in others <==> id in othersSet;
    DistinctConcat(control, others);
  }

  lemma AcyclicSubset(present: set<EventId>, store: EventStore)
    requires present <= store.Keys
    requires PowerSort.AcyclicWithin(store.Keys, store)
    ensures PowerSort.AcyclicWithin(present, store)
  {
    var rank :| PowerSort.RankedBy(rank, store.Keys, store);
    forall id, a | id in present && a in PowerSort.Deps(id, present, store) ensures rank[a] < rank[id] {
      assert a in PowerSort.Deps(id, store.Keys, store);
    }
    assert PowerSort.RankedBy(rank, present, store);
  }

  /** Agreed slots are returned unchanged and no slot absent from every fork appears. A disputed slot
      has a value exactly when some event for it was accepted, and then holds the last one accepted:
      a stored event of the disputed ids or the auth difference whose own type and state key are the
      slot, authorised against the working state at its turn. */
  lemma Provenance(forks: set<StateMap>, chains: set<set<EventId>>, store: EventStore, rules: Rules)
    requires MainlineOrder.LinksAcyclic(store)
    ensures var result := Resolved(forks, chains, store, rules);
            var agreed, full := Unconflicted(forks), FullSet(forks, chains);
            var order := JudgingOrder(agreed, full, store, rules);
            && (forall slot | slot in agreed :: slot in result && result[slot] == agreed[slot])
            && result.Keys <= Slots(forks)
            && (forall slot | slot in Conflicted(forks) ::
                  && (slot in result <==> exists k :: LastWriter(order, k, slot, agreed, store, rules))
                  && (slot in result ==>
                        && result[slot] in full && result[slot] in store
                        && exists k :: LastWriter(order, k, slot, agreed, store, rules) && result[slot] == order[k]))
  {
    PartitionCovers(forks);
    var agreed, full := Unconflicted(forks), FullSet(forks, chains);
    var order := JudgingOrder(agreed, full, store, rules);
    JudgedEvents(agreed, full, store, rules);
    forall slot | slot in Conflicted(forks)
      ensures var result := Resolved(forks, chains, store, rules);
              && (slot in result <==> exists k :: LastWriter(order, k, slot, agreed, store, rules))
              && (slot in result ==>
                    && result[slot] in full && result[slot] in store
                    && exists k :: LastWriter(order, k, slot, agreed, store, rules) && result[slot] == order[k])
    {
      FoldProvenance(order, slot, agreed, store, rules);
    }
  }

  // ---------------------------------------------------------------- the engine

  method OrderControl(full: set<EventId>, store: EventStore) returns (ordered: seq<EventId>)
    requires KeyedById(store)
    ensures ordered == PowerSort.PowerOrder(ControlOf(full, store), store)
  {
    var controlSet := ControlOf(full, store);
    var control := Ascending(controlSet);
    AscendingIsArrangement(controlSet);
    assert PowerHeap.Present(control, store) == controlSet;
    ordered := PowerHeap.ReverseTopologicalPowerSort(control, store);
    PowerSort.PowerOrderUnique(ordered, PowerSort.PowerOrder(controlSet, store), controlSet, store);
  }

  method OrderOthers(full: set<EventId>, powerLevels: Option<EventId>, store: EventStore) returns (ordered: seq<EventId>)
    requires MainlineOrder.LinksAcyclic(store)
    ensures ordered == MainlineOrder.OrderOf(OthersOf(full, store), powerLevels, store)
  {
    var othersSet := OthersOf(full, store);
    var others := Ascending(othersSet);
    AscendingIsArrangement(othersSet);
    ordered := MainlineOrder.MainlineOrdering(powerLevels, others, store);
    MainlineOrder.MainlineOrderUnique(ordered, MainlineOrder.OrderOf(othersSet, powerLevels, store),
                                      multiset(othersSet), powerLevels, store);
  }

  method ComputeResolvedSlots(unconflicted: StateMap, slots: set<Slot>, full: set<EventId>, store: EventStore, rules: Rules)
    returns (resolved: StateMap)
    requires KeyedById(store)
    requires MainlineOrder.LinksAcyclic(store)
    ensures resolved == Restrict(WorkingState(unconflicted, full, store, rules), slots)
  {
    var orderedControl := OrderControl(full, store);
    var partial := IterativeAuthChecks(orderedControl, unconflicted, store, rules);
    var orderedOthers := OrderOthers(full, PowerLevelsEvent(partial), store);
    FoldConcat(orderedControl, orderedOthers, unconflicted, store, rules);
    partial := IterativeAuthChecks(orderedOthers, partial, store, rules);
    resolved := Restrict(partial, slots);
  }

  method Resolve(forks: seq<StateMap>, authChains: seq<set<EventId>>, store: EventStore, rules: Rules, cache: ResolvedStateCache)
    returns (result: StateMap)
    requires cache.Valid()
    requires KeyedById(store)
    requires MainlineOrder.LinksAcyclic(store)
    modifies cache
    ensures cache.Valid()
    ensures var f, c := Elements(forks), Elements(authChains);
            if Conflicted(f) == map[] then
              result == Unconflicted(f) && cache.entries == old(cache.entries) && cache.order == old(cache.order)
            else if Disputed(f) in old(cache.entries) then
              && result == Unconflicted(f) + old(cache.entries)[Disputed(f)]
              && cache.entries == old(cache.entries) && cache.order == old(cache.order)
            else
              && result == Resolved(f, c, store, rules)
              && (cache.capacity == 0 ==> cache.entries == old(cache.entries))
              && (cache.capacity > 0 ==>
                    && cache.order == Newest(old(cache.order) + [Disputed(f)], cache.capacity)
                    && Disputed(f) in cache.entries
                    && cache.entries[Disputed(f)] == ResolvedSlots(f, c, store, rules))
              && (forall k | k in cache.entries && k != Disputed(f) ::
                    k in old(cache.entries) && cache.entries[k] == old(cache.entries)[k])
  {
    var unconflicted, conflicted := Partition(forks);
    if conflicted == map[] {
      return unconflicted;
    }
    var cacheKey := ConflictingEventIds(conflicted);
    var hit := cache.Get(cacheKey);
    if hit.Some? {
      return unconflicted + hit.value;
    }
    var difference := ComputeAuthDifference(authChains);
    var full := cacheKey + difference;
    var resolved := ComputeResolvedSlots(unconflicted, conflicted.Keys, full, store, rules);
    cache.Insert(cacheKey, resolved);
    result := unconflicted + resolved;
  }

  /** Two servers with fresh caches, whatever their capacities, that hold the same forks and auth
      chains in any order and with any repetition, compute the same state. */
  method Converge(forks: seq<StateMap>, forks': seq<StateMap>, chains: seq<set<EventId>>, chains': seq<set<EventId>>,
                  store: EventStore, rules: Rules, capacity: nat, capacity': nat)
    returns (a: StateMap, b: StateMap)
    requires KeyedById(store)
    requires MainlineOrder.LinksAcyclic(store)
    requires Elements(forks) == Elements(forks')
    requires Elements(chains) == Elements(chains')
    ensures a == b == Resolved(Elements(forks), Elements(chains), store, rules)
  {
    var cache := new ResolvedStateCache(capacity);
    var cache' := new ResolvedStateCache(capacity');
    a := Resolve(forks, chains, store, rules, cache);
    b := Resolve(forks', chains', store, rules, cache');
  }

  // ---------------------------------------------------------------- the cache against recomputation

  /** Every event of a fork sits in the slot named by its own type and state key. */
  ghost predicate InOwnSlots(forks: set<StateMap>, store: EventStore) {
    forall fork, slot | fork in forks && slot in fork :: fork[slot] in store && store[fork[slot]].Slot() == slot
  }

  ghost function SlotsOf(ids: set<EventId>, store: EventStore): set<Slot> {
    set id | id in ids && id in store :: store[id].Slot()
  }

  /** For forks whose events sit in their own slots the disputed ids determine the disputed slots. */
  lemma DisputedIdsDetermineSlots(forks: set<StateMap>, store: EventStore)
    requires InOwnSlots(forks, store)
    ensures Conflicted(forks).Keys == SlotsOf(Disputed(forks), store)
  {
  }

  /** Every memoised entry is what a fresh computation gives its key under one agreed state, one auth
      difference, one store and one rule set. */
  ghost predicate Memoised(entries: map<CacheKey, StateMap>, agreed: StateMap, difference: set<EventId>,
                           store: EventStore, rules: Rules)
    requires MainlineOrder.LinksAcyclic(store)
  {
    forall key | key in entries ::
      entries[key] == Restrict(WorkingState(agreed, key + difference, store, rules), SlotsOf(key, store))
  }

  /** On a hit, the memoised slots are the freshly resolved ones. */
  lemma MemoAgrees(forks: set<StateMap>, chains: set<set<EventId>>, entries: map<CacheKey, StateMap>, agreed: StateMap,
                   store: EventStore, rules: Rules)
    requires MainlineOrder.LinksAcyclic(store)
    requires InOwnSlots(forks, store) && Unconflicted(forks) == agreed
    requires Memoised(entries, agreed, AuthDifference(chains), store, rules)
    ensures Disputed(forks) in entries ==> entries[Disputed(forks)] == ResolvedSlots(forks, chains, store, rules)
  {
    DisputedIdsDetermineSlots(forks, store);
  }

  /** A fresh result inserted under its own key keeps the memo sound. */
  lemma MemoKept(forks: set<StateMap>, chains: set<set<EventId>>, before: map<CacheKey, StateMap>, after: map<CacheKey, StateMap>,
                 agreed: StateMap, store: EventStore, rules: Rules)
    requires MainlineOrder.LinksAcyclic(store)
    requires InOwnSlots(forks, store) && Unconflicted(forks) == agreed
    requires Memoised(before, agreed, AuthDifference(chains), store, rules)
    requires forall key | key in after ::
               || (key in before && after[key] == before[key])
               || (key == Disputed(forks) && after[key] == ResolvedSlots(forks, chains, store, rules))
    ensures Memoised(after, agreed, AuthDifference(chains), store, rules)
  {
    DisputedIdsDetermineSlots(forks, store);
  }

  /** The forks hold events in their own slots and agree on exactly `agreed`. */
  ghost predicate AgreeOn(forks: seq<StateMap>, agreed: StateMap, store: EventStore) {
    InOwnSlots(Elements(forks), store) && Unconflicted(Elements(forks)) == agreed
  }

  /** `result` is what a fresh computation gives for `forks`. */
  ghost predicate IsFresh(result: StateMap, forks: seq<StateMap>, chains: seq<set<EventId>>, store: EventStore, rules: Rules)
    requires MainlineOrder.LinksAcyclic(store)
  {
    result == Resolved(Elements(forks), Elements(chains), store, rules)
  }

  /** With a sound memo, hit or miss, the answer is the fresh one and the memo stays sound. */
  method ResolveMemoised(forks: seq<StateMap>, chains: seq<set<EventId>>, store: EventStore, rules: Rules,
                         cache: ResolvedStateCache, ghost agreed: StateMap)
    returns (result: StateMap)
    requires cache.Valid()
    requires KeyedById(store)
    requires MainlineOrder.LinksAcyclic(store)
    requires AgreeOn(forks, agreed, store)
    requires Memoised(cache.entries, agreed, AuthDifference(Elements(chains)), store, rules)
    modifies cache
    ensures cache.Valid()
    ensures IsFresh(result, forks, chains, store, rules)
    ensures Memoised(cache.entries, agreed, AuthDifference(Elements(chains)), store, rules)
  {
    ghost var f, c, before := Elements(forks), Elements(chains), cache.entries;
    MemoAgrees(f, c, before, agreed, store, rules);
    result := Resolve(forks, chains, store, rules, cache);
    MemoKept(f, c, before, cache.entries, agreed, store, rules);
  }

  /** Every result is what a fresh computation gives. */
  ghost predicate AllFresh(results: seq<StateMap>, runs: seq<seq<StateMap>>, chains: seq<set<EventId>>,
                           store: EventStore, rules: Rules)
    requires MainlineOrder.LinksAcyclic(store)
  {
    |results| == |runs| && forall i | 0 <= i < |runs| :: IsFresh(results[i], runs[i], chains, store, rules)
  }

  lemma AllFreshNext(results: seq<StateMap>, runs: seq<seq<StateMap>>, result: StateMap, forks: seq<StateMap>,
                     chains: seq<set<EventId>>, store: EventStore, rules: Rules)
    requires MainlineOrder.LinksAcyclic(store)
    requires AllFresh(results, runs, chains, store, rules)
    requires IsFresh(result, forks, chains, store, rules)
    ensures AllFresh(results + [result], runs + [forks], chains, store, rules)
  {
  }

  /** Over any run of resolutions that share agreed state, auth chains, store and rules, through one
      cache of any capacity, every answer is what a fresh computation would give. */
  method ResolveAll(runs: seq<seq<StateMap>>, chains: seq<set<EventId>>, store: EventStore, rules: Rules,
                    ghost agreed: StateMap, capacity: nat)
    returns (results: seq<StateMap>)
    requires KeyedById(store)
    requires MainlineOrder.LinksAcyclic(store)
    requires forall i | 0 <= i < |runs| :: AgreeOn(runs[i], agreed, store)
    ensures AllFresh(results, runs, chains, store, rules)
  {
    var cache := new ResolvedStateCache(capacity);
    results := [];
    for i := 0 to |runs|
      invariant cache.Valid() && fresh(cache)
      invariant Memoised(cache.entries, agreed, AuthDifference(Elements(chains)), store, rules)
      invariant AllFresh(results, runs[..i], chains, store, rules)
    {
      var result := ResolveMemoised(runs[i], chains, store, rules, cache, agreed);
      AllFreshNext(results, runs[..i], result, runs[i], chains, store, rules);
      assert runs[..i + 1] == runs[..i] + [runs[i]];
      results := results + [result];
    }
    assert runs[..|runs|] == runs;
  }

  // ---------------------------------------------------------------- what the cache key leaves out

  /** Accepts an event for one of `slots` only while the state is exactly `agreed`. */
  function OnlyOver(agreed: StateMap, slots: set<Slot>): Rules {
    (event: Event, state: StateMap, store: EventStore) => state == agreed && event.Slot() in slots
  }

  lemma {:induction false} OthersRejected(ids: seq<EventId>, agreed: StateMap, base: StateMap, slots: set<Slot>, store: EventStore)
    requires base != agreed
    ensures Fold(ids, base, store, OnlyOver(agreed, slots)) == base
  {
    if ids != [] {
      OthersRejected(ids[..|ids| - 1], agreed, base, slots, store);
    }
  }

  ghost predicate Fills(state: StateMap, slots: set<Slot>) {
    exists slot :: slot in slots && slot in state
  }

  lemma {:induction false} AgreedOrFilled(ids: seq<EventId>, agreed: StateMap, slots: set<Slot>, store: EventStore)
    ensures var state := Fold(ids, agreed, store, OnlyOver(agreed, slots));
            state == agreed || Fills(state, slots)
  {
    if ids != [] {
      AgreedOrFilled(ids[..|ids| - 1], agreed, slots, store);
    }
  }

  /** The first event for one of the slots is accepted. */
  lemma {:induction false} FirstAccepted(ids: seq<EventId>, k: nat, agreed: StateMap, slots: set<Slot>, store: EventStore)
    requires k < |ids| && ids[k] in store && store[ids[k]].Slot() in slots
    ensures Fills(Fold(ids, agreed, store, OnlyOver(agreed, slots)), slots)
  {
    var n := |ids| - 1;
    if k < n {
      FirstAccepted(ids[..n], k, agreed, slots, store);
    } else {
      AgreedOrFilled(ids[..n], agreed, slots, store);
    }
  }

  lemma NothingResolved(forks: set<StateMap>, chains: set<set<EventId>>, agreed: StateMap, store: EventStore)
    requires MainlineOrder.LinksAcyclic(store)
    requires Unconflicted(forks) != agreed
    ensures ResolvedSlots(forks, chains, store, OnlyOver(agreed, Conflicted(forks).Keys)) == map[]
  {
    var base, full, slots := Unconflicted(forks), FullSet(forks, chains), Conflicted(forks).Keys;
    PartitionCovers(forks);
    OthersRejected(JudgingOrder(base, full, store, OnlyOver(agreed, slots)), agreed, base, slots, store);
  }

  lemma SomethingResolved(forks: set<StateMap>, chains: set<set<EventId>>, store: EventStore)
    requires PowerSort.AcyclicWithin(store.Keys, store) && MainlineOrder.LinksAcyclic(store)
    requires InOwnSlots(forks, store) && Conflicted(forks) != map[]
    ensures ResolvedSlots(forks, chains, store, OnlyOver(Unconflicted(forks), Conflicted(forks).Keys)) != map[]
  {
    var agreed, full, slots := Unconflicted(forks), FullSet(forks, chains), Conflicted(forks).Keys;
    var rules := OnlyOver(agreed, slots);
    var order := JudgingOrder(agreed, full, store, rules);
    JudgedEvents(agreed, full, store, rules);
    var slot :| slot in Conflicted(forks);
    CandidatesSize(forks, slot);
    var id :| id in Conflicted(forks)[slot];
    assert id in full && id in store && store[id].Slot() == slot;
    var k :| 0 <= k < |order| && order[k] == id;
    FirstAccepted(order, k, agreed, slots, store);
    var s :| s in slots && s in Fold(order, agreed, store, rules);
    assert s in ResolvedSlots(forks, chains, store, rules);
  }

  /** The disputed slots resolve alike. */
  ghost predicate SameAnswer(forks: set<StateMap>, forks': set<StateMap>, chains: set<set<EventId>>, store: EventStore, rules: Rules)
    requires MainlineOrder.LinksAcyclic(store)
  {
    ResolvedSlots(forks, chains, store, rules) == ResolvedSlots(forks', chains, store, rules)
  }

  lemma SameAgreedSameAnswer(forks: set<StateMap>, forks': set<StateMap>, chains: set<set<EventId>>, store: EventStore, rules: Rules)
    requires MainlineOrder.LinksAcyclic(store)
    requires Unconflicted(forks) == Unconflicted(forks') && Disputed(forks) == Disputed(forks')
    requires Conflicted(forks).Keys == Conflicted(forks').Keys
    ensures SameAnswer(forks, forks', chains, store, rules)
  {
  }

  /** Exactly when the cache key suffices: for forks with the same disputed ids and the same auth
      chains, an answer memoised for one is right for the other under every rule set if and only if
      both agree on the same state. */
  lemma KeySufficesIffAgreed(forks: set<StateMap>, forks': set<StateMap>, chains: set<set<EventId>>, store: EventStore)
    requires PowerSort.AcyclicWithin(store.Keys, store) && MainlineOrder.LinksAcyclic(store)
    requires InOwnSlots(forks, store) && InOwnSlots(forks', store)
    requires Conflicted(forks) != map[] && Disputed(forks) == Disputed(forks')
    ensures (forall rules: Rules :: SameAnswer(forks, forks', chains, store, rules))
       <==> Unconflicted(forks) == Unconflicted(forks')
  {
    DisputedIdsDetermineSlots(forks, store);
    DisputedIdsDetermineSlots(forks', store);
    var agreed, slots := Unconflicted(forks), Conflicted(forks).Keys;
    if agreed != Unconflicted(forks') {
      SomethingResolved(forks, chains, store);
      NothingResolved(forks', chains, agreed, store);
      assert !SameAnswer(forks, forks', chains, store, OnlyOver(agreed, slots));
    } else {
      forall rules: Rules ensures SameAnswer(forks, forks', chains, store, rules) {
        SameAgreedSameAnswer(forks, forks', chains, store, rules);
      }
    }
  }

  const NAME_SLOT: Slot := ("m.room.name", "")

  /** `x` and `y` are different stored room-name events. */
  ghost predicate RivalNames(x: EventId, y: EventId, store: EventStore) {
    x != y && x in store && y in store && store[x].Slot() == NAME_SLOT == store[y].Slot()
  }

  /** Forks that agree on `base` and differ on the room name. */
  ghost function NameForks(base: StateMap, x: EventId, y: EventId): set<StateMap> {
    {base[NAME_SLOT := x], base[NAME_SLOT := y]}
  }

  lemma NameForkCandidates(base: StateMap, x: EventId, y: EventId, slot: Slot)
    requires NAME_SLOT !in base
    ensures Candidates(NameForks(base, x, y), slot) ==
            if slot == NAME_SLOT then {x, y} else if slot in base then {base[slot]} else {}
    ensures slot in Slots(NameForks(base, x, y)) <==> slot == NAME_SLOT || slot in base
  {
    var f, g := base[NAME_SLOT := x], base[NAME_SLOT := y];
    var forks := NameForks(base, x, y);
    assert f in forks && g in forks && slot in f <==> slot in g;
    if slot in f {
      assert f[slot] in Candidates(forks, slot) && g[slot] in Candidates(forks, slot);
    }
  }

  lemma NameForksDispute(base: StateMap, x: EventId, y: EventId)
    requires NAME_SLOT !in base && x != y
    ensures Conflicted(NameForks(base, x, y)) == map[NAME_SLOT := {x, y}]
    ensures Disputed(NameForks(base, x, y)) == {x, y}
  {
    var conflicted := Conflicted(NameForks(base, x, y));
    NameForkCandidates(base, x, y, NAME_SLOT);
    forall slot ensures slot in conflicted <==> slot == NAME_SLOT {
      NameForkCandidates(base, x, y, slot);
    }
    assert conflicted[NAME_SLOT] == {x, y};
  }

  lemma NameForksAgree(base: StateMap, x: EventId, y: EventId)
    requires NAME_SLOT !in base && x != y
    ensures Unconflicted(NameForks(base, x, y)) == base
  {
    var forks := NameForks(base, x, y);
    var agreed := Unconflicted(forks);
    forall slot ensures slot in agreed <==> slot in base
                ensures slot in base ==> agreed[slot] == base[slot]
    {
      NameForkCandidates(base, x, y, slot);
      if slot in base {
        assert Agreed(forks, slot, base[slot]);
        assert base[slot] in {agreed[slot]};
      }
    }
  }

  /** With no create event in force a room-name event is rejected. */
  lemma {:induction false} NothingAccepted(ids: seq<EventId>, store: EventStore)
    requires forall id | id in ids :: id in store && store[id].Slot() == NAME_SLOT
    ensures Fold(ids, map[], store, RoomRules) == map[]
  {
    if ids != [] {
      var n := |ids| - 1;
      NothingAccepted(ids[..n], store);
      RoomRulesAreAllFour(store[ids[n]], map[], store);
    }
  }

  /** With one, and no power levels, it is accepted. */
  lemma {:induction false} NameAccepted(ids: seq<EventId>, base: StateMap, store: EventStore)
    requires base.Keys == {CREATE_SLOT}
    requires forall id | id in ids :: id in store && store[id].Slot() == NAME_SLOT
    ensures var state := Fold(ids, base, store, RoomRules);
            && CREATE_SLOT in state && POWER_LEVELS_SLOT !in state
            && (ids != [] ==> NAME_SLOT in state)
  {
    if ids != [] {
      var n := |ids| - 1;
      NameAccepted(ids[..n], base, store);
      RoomRulesAreAllFour(store[ids[n]], Fold(ids[..n], base, store, RoomRules), store);
    }
  }

  lemma WorkingName(base: StateMap, x: EventId, y: EventId, store: EventStore)
    requires PowerSort.AcyclicWithin(store.Keys, store) && MainlineOrder.LinksAcyclic(store)
    requires RivalNames(x, y, store)
    requires base.Keys == {CREATE_SLOT} || base == map[]
    ensures NAME_SLOT in WorkingState(base, {x, y}, store, RoomRules) <==> base != map[]
  {
    JudgedEvents(base, {x, y}, store, RoomRules);
    var order := JudgingOrder(base, {x, y}, store, RoomRules);
    assert x in order;
    if base == map[] {
      NothingAccepted(order, store);
    } else {
      NameAccepted(order, base, store);
    }
  }

  lemma NameParts(base: StateMap, x: EventId, y: EventId)
    requires NAME_SLOT !in base && x != y
    ensures Unconflicted(NameForks(base, x, y)) == base
    ensures FullSet(NameForks(base, x, y), {}) == {x, y}
    ensures Conflicted(NameForks(base, x, y)).Keys == {NAME_SLOT}
  {
    NameForksDispute(base, x, y);
    NameForksAgree(base, x, y);
    assert AuthDifference({}) == {};
  }

  lemma NameSlots(base: StateMap, x: EventId, y: EventId, store: EventStore)
    requires MainlineOrder.LinksAcyclic(store)
    requires NAME_SLOT !in base && x != y
    ensures ResolvedSlots(NameForks(base, x, y), {}, store, RoomRules) ==
            Restrict(WorkingState(base, {x, y}, store, RoomRules), {NAME_SLOT})
  {
    NameParts(base, x, y);
  }

  lemma NamesInOwnSlots(base: StateMap, x: EventId, y: EventId, store: EventStore)
    requires RivalNames(x, y, store)
    requires forall slot | slot in base :: base[slot] in store && store[base[slot]].Slot() == slot
    ensures InOwnSlots(NameForks(base, x, y), store)
  {
  }

  /** The disputed ids alone do not determine the answer. Under the server's own rules, whatever the
      store, forks that agree on a create event and forks that agree on nothing have the same disputed
      ids, yet the first resolve the disputed name and the second leave it out, so an entry memoised
      for one is wrong for the other. */
  lemma CacheKeyTooCoarse(base: StateMap, x: EventId, y: EventId, store: EventStore)
    requires PowerSort.AcyclicWithin(store.Keys, store) && MainlineOrder.LinksAcyclic(store)
    requires RivalNames(x, y, store)
    requires base == map[] || base.Keys == {CREATE_SLOT}
    requires forall slot | slot in base :: base[slot] in store && store[base[slot]].Slot() == slot
    ensures InOwnSlots(NameForks(base, x, y), store)
    ensures Disputed(NameForks(base, x, y)) == {x, y}
    ensures NAME_SLOT in ResolvedSlots(NameForks(base, x, y), {}, store, RoomRules) <==> base != map[]
  {
    NamesInOwnSlots(base, x, y, store);
    NameForksDispute(base, x, y);
    NameSlots(base, x, y, store);
    WorkingName(base, x, y, store);
  }

  /** The listed forks dispute exactly the two names. */
  lemma NameForksListed(base: StateMap, x: EventId, y: EventId, forks: seq<StateMap>)
    requires NAME_SLOT !in base && x != y
    requires forks == [base[NAME_SLOT := x], base[NAME_SLOT := y]]
    ensures Elements(forks) == NameForks(base, x, y)
    ensures Conflicted(Elements(forks)) != map[] && Disputed(Elements(forks)) == {x, y}
  {
    assert forks[0] in forks && forks[1] in forks;
    assert Elements(forks) == NameForks(base, x, y);
    NameForksDispute(base, x, y);
  }

  /** Forks that agree on nothing leave the disputed name out. */
  lemma NameLeftOut(x: EventId, y: EventId, store: EventStore)
    requires PowerSort.AcyclicWithin(store.Keys, store) && MainlineOrder.LinksAcyclic(store)
    requires RivalNames(x, y, store)
    ensures NAME_SLOT !in Resolved(NameForks(map[], x, y), {}, store, RoomRules)
  {
    CacheKeyTooCoarse(map[], x, y, store);
    NameParts(map[], x, y);
  }

  /** A miss fills the cache. */
  method ResolveMiss(forks: seq<StateMap>, chains: seq<set<EventId>>, store: EventStore, rules: Rules, cache: ResolvedStateCache)
    returns (result: StateMap)
    requires cache.Valid() && cache.capacity > 0
    requires KeyedById(store) && MainlineOrder.LinksAcyclic(store)
    requires Conflicted(Elements(forks)) != map[] && Disputed(Elements(forks)) !in cache.entries
    modifies cache
    ensures cache.Valid() && Disputed(Elements(forks)) in cache.entries
    ensures cache.entries[Disputed(Elements(forks))] == ResolvedSlots(Elements(forks), Elements(chains), store, rules)
  {
    result := Resolve(forks, chains, store, rules, cache);
  }

  /** A hit answers from it. */
  method ResolveHit(forks: seq<StateMap>, chains: seq<set<EventId>>, store: EventStore, rules: Rules, cache: ResolvedStateCache)
    returns (result: StateMap)
    requires cache.Valid()
    requires KeyedById(store) && MainlineOrder.LinksAcyclic(store)
    requires Conflicted(Elements(forks)) != map[] && Disputed(Elements(forks)) in cache.entries
    modifies cache
    ensures cache.Valid()
    ensures result == Unconflicted(Elements(forks)) + old(cache.entries)[Disputed(Elements(forks))]
  {
    result := Resolve(forks, chains, store, rules, cache);
  }

  /** After forks that fill a slot, forks with the same disputed ids are answered with that slot filled. */
  method SecondAnswer(forks: seq<StateMap>, forks': seq<StateMap>, chains: seq<set<EventId>>, store: EventStore, rules: Rules,
                      slot: Slot, capacity: nat)
    returns (second: StateMap)
    requires KeyedById(store) && MainlineOrder.LinksAcyclic(store) && capacity > 0
    requires Conflicted(Elements(forks)) != map[] && Conflicted(Elements(forks')) != map[]
    requires Disputed(Elements(forks)) == Disputed(Elements(forks'))
    requires slot in ResolvedSlots(Elements(forks), Elements(chains), store, rules)
    ensures slot in second
  {
    var cache := new ResolvedStateCache(capacity);
    var first := ResolveMiss(forks, chains, store, rules, cache);
    second := ResolveHit(forks', chains, store, rules, cache);
  }

  lemma FirstFillsName(base: StateMap, x: EventId, y: EventId, store: EventStore, forks: seq<StateMap>, chains: seq<set<EventId>>)
    requires PowerSort.AcyclicWithin(store.Keys, store) && MainlineOrder.LinksAcyclic(store)
    requires RivalNames(x, y, store)
    requires base.Keys == {CREATE_SLOT} && base[CREATE_SLOT] in store && store[base[CREATE_SLOT]].Slot() == CREATE_SLOT
    requires forks == [base[NAME_SLOT := x], base[NAME_SLOT := y]] && chains == []
    ensures Conflicted(Elements(forks)) != map[] && Disputed(Elements(forks)) == {x, y}
    ensures NAME_SLOT in ResolvedSlots(Elements(forks), Elements(chains), store, RoomRules)
  {
    NameForksListed(base, x, y, forks);
    CacheKeyTooCoarse(base, x, y, store);
    assert Elements(chains) == {};
  }

  lemma SameNamesDisputed(base: StateMap, x: EventId, y: EventId, store: EventStore, forks: seq<StateMap>, forks': seq<StateMap>,
                          chains: seq<set<EventId>>)
    requires PowerSort.AcyclicWithin(store.Keys, store) && MainlineOrder.LinksAcyclic(store)
    requires RivalNames(x, y, store)
    requires base.Keys == {CREATE_SLOT} && base[CREATE_SLOT] in store && store[base[CREATE_SLOT]].Slot() == CREATE_SLOT
    requires forks == [base[NAME_SLOT := x], base[NAME_SLOT := y]]
    requires forks' == [map[NAME_SLOT := x], map[NAME_SLOT := y]] && chains == []
    ensures Conflicted(Elements(forks)) != map[] && Conflicted(Elements(forks')) != map[]
    ensures Disputed(Elements(forks)) == Disputed(Elements(forks'))
    ensures NAME_SLOT in ResolvedSlots(Elements(forks), Elements(chains), store, RoomRules)
  {
    FirstFillsName(base, x, y, store, forks, chains);
    NameForksListed(map[], x, y, forks');
  }

  /** The failure through the code: forks that agree on a create event, then forks that agree on
      nothing, with the same rival names and one cache. The second answer is the first one's name
      where a fresh computation has none. */
  method StaleHit(create: EventId, x: EventId, y: EventId, store: EventStore, capacity: nat) returns (second: StateMap)
    requires KeyedById(store) && capacity > 0
    requires PowerSort.AcyclicWithin(store.Keys, store) && MainlineOrder.LinksAcyclic(store)
    requires RivalNames(x, y, store)
    requires create in store && store[create].Slot() == CREATE_SLOT
    ensures NAME_SLOT in second
    ensures NAME_SLOT !in Resolved(NameForks(map[], x, y), {}, store, RoomRules)
  {
    var base: StateMap, none: StateMap, chains: seq<set<EventId>> := map[CREATE_SLOT := create], map[], [];
    var forks, forks' := [base[NAME_SLOT := x], base[NAME_SLOT := y]], [none[NAME_SLOT := x], none[NAME_SLOT := y]];
    SameNamesDisputed(base, x, y, store, forks, forks', chains);
    second := SecondAnswer(forks, forks', chains, store, RoomRules, NAME_SLOT, capacity);
    NameLeftOut(x, y, store);
  }
}
