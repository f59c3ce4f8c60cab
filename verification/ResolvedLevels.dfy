/** What resolution does to power: the run theorems applied to the resolved state. */
module ResolvedLevels {
  import opened Basics
  import opened RoomEvents
  import opened AuthRules
  import opened RoomRuns
  import opened Forks
  import opened Resolution
  import PowerSort
  import MainlineOrder

  /** The levels in force after resolution are those of the agreed state, or, when the power-levels
      slot is disputed, those of the working state. */
  lemma LevelsOfResult(forks: set<StateMap>, chains: set<set<EventId>>, store: EventStore, rules: Rules)
    requires MainlineOrder.LinksAcyclic(store)
    ensures var agreed := Unconflicted(forks);
            CurrentLevels(Resolved(forks, chains, store, rules), store) ==
            if POWER_LEVELS_SLOT in Conflicted(forks)
            then CurrentLevels(WorkingState(agreed, FullSet(forks, chains), store, rules), store)
            else CurrentLevels(agreed, store)
  {
    PartitionCovers(forks);
  }

  lemma WorkingCapped(agreed: StateMap, full: set<EventId>, store: EventStore, cap: int)
    requires MainlineOrder.LinksAcyclic(store)
    requires Capped(CurrentLevels(agreed, store), cap)
    ensures Capped(CurrentLevels(WorkingState(agreed, full, store, RoomRules), store), cap)
  {
    var order := JudgingOrder(agreed, full, store, RoomRules);
    NoEscalation(order, |order|, agreed, store, cap);
    assert order[..|order|] == order;
  }

  /** Resolution raises nobody above a cap that holds in the agreed state. */
  lemma ResolvedCapped(forks: set<StateMap>, chains: set<set<EventId>>, store: EventStore, cap: int)
    requires MainlineOrder.LinksAcyclic(store)
    requires Capped(CurrentLevels(Unconflicted(forks), store), cap)
    ensures Capped(CurrentLevels(Resolved(forks, chains, store, RoomRules), store), cap)
  {
    LevelsOfResult(forks, chains, store, RoomRules);
    WorkingCapped(Unconflicted(forks), FullSet(forks, chains), store, cap);
  }

  /** A dispute over power levels leaves nobody with a positive level: the agreed state then has
      none, and no accepted event can raise anyone above zero. */
  lemma DisputedLevelsVanish(forks: set<StateMap>, chains: set<set<EventId>>, store: EventStore)
    requires MainlineOrder.LinksAcyclic(store)
    requires POWER_LEVELS_SLOT in Conflicted(forks)
    ensures Capped(CurrentLevels(Resolved(forks, chains, store, RoomRules), store), 0)
  {
    PartitionCovers(forks);
    ResolvedCapped(forks, chains, store, 0);
  }

  // ---------------------------------------------------------------- when a disputed slot is filled

  /** No level is above zero. */
  predicate NonPositive(levels: PowerLevels) {
    && (forall user | user in levels.users :: levels.users[user] <= 0)
    && (forall kind | kind in levels.events :: levels.events[kind] <= 0)
    && levels.usersDefault <= 0 && levels.eventsDefault <= 0 && levels.stateDefault <= 0
    && levels.invite <= 0 && levels.kick <= 0 && levels.ban <= 0
  }

  /** A power-levels event that grants nothing. */
  predicate GrantsNothing(event: Event) {
    event.Slot() == POWER_LEVELS_SLOT && event.levels.Some? && NonPositive(event.levels.value)
  }

  lemma ChangesFromZero(levels: PowerLevels)
    ensures (forall c | c in ChangeSet(ZERO_LEVELS, levels) :: c.0 <= 0 && c.1 <= 0) <==> NonPositive(levels)
  {
    var zero := ZERO_LEVELS;
    if forall c | c in ChangeSet(zero, levels) :: c.0 <= 0 && c.1 <= 0 {
      forall user | user in levels.users ensures levels.users[user] <= 0 {
        assert user in zero.users.Keys + levels.users.Keys;
        if levels.users[user] != 0 {
          assert (LevelAt(zero.users, user, 0), LevelAt(levels.users, user, levels.usersDefault))
              in EntryChanges(zero.users, 0, levels.users, levels.usersDefault);
          assert (0, levels.users[user]) in ChangeSet(zero, levels);
        }
      }
      forall kind | kind in levels.events ensures levels.events[kind] <= 0 {
        assert kind in zero.events.Keys + levels.events.Keys;
        if levels.events[kind] != 0 {
          assert (LevelAt(zero.events, kind, 0), LevelAt(levels.events, kind, levels.eventsDefault))
              in EntryChanges(zero.events, 0, levels.events, levels.eventsDefault);
          assert (0, levels.events[kind]) in ChangeSet(zero, levels);
        }
      }
      ScalarsNonPositive(levels);
    }
  }

  lemma ScalarsNonPositive(levels: PowerLevels)
    requires forall c | c in ChangeSet(ZERO_LEVELS, levels) :: c.0 <= 0 && c.1 <= 0
    ensures levels.usersDefault <= 0 && levels.eventsDefault <= 0 && levels.stateDefault <= 0
    ensures levels.invite <= 0 && levels.kick <= 0 && levels.ban <= 0
  {
    var scalars := Scalars(ZERO_LEVELS, levels);
    forall i | 0 <= i < |scalars| ensures scalars[i].1 <= 0 {
      if scalars[i].0 != scalars[i].1 {
        assert scalars[i] in ScalarChanges(ZERO_LEVELS, levels);
        assert scalars[i] in ChangeSet(ZERO_LEVELS, levels);
      }
    }
    assert scalars[0].1 <= 0 && scalars[1].1 <= 0 && scalars[2].1 <= 0;
    assert scalars[3].1 <= 0 && scalars[4].1 <= 0 && scalars[5].1 <= 0;
  }

  /** Where no power levels are in force, a created room accepts exactly those that grant nothing. */
  lemma AcceptedOverZero(event: Event, state: StateMap, store: EventStore)
    requires event.Slot() == POWER_LEVELS_SLOT
    requires POWER_LEVELS_SLOT !in state
    ensures RoomRules(event, state, store) <==> CREATE_SLOT in state && GrantsNothing(event)
  {
    RoomRulesAreAllFour(event, state, store);
    if event.levels.Some? {
      ChangesFromZero(event.levels.value);
    }
  }

  /** Control events leave the create slot alone, and the first that grants nothing fills an empty
      power-levels slot. */
  lemma {:induction false} ControlPass(ids: seq<EventId>, base: StateMap, store: EventStore)
    requires forall id | id in ids :: id in store && IsControlEvent(store[id])
    requires POWER_LEVELS_SLOT !in base
    ensures var state := Fold(ids, base, store, RoomRules);
            && (CREATE_SLOT in state <==> CREATE_SLOT in base)
            && (POWER_LEVELS_SLOT in state <==>
                  CREATE_SLOT in base && exists id :: id in ids && GrantsNothing(store[id]))
  {
    if ids != [] {
      var n := |ids| - 1;
      ControlPass(ids[..n], base, store);
      assert ids == ids[..n] + [ids[n]];
      var state, event := Fold(ids[..n], base, store, RoomRules), store[ids[n]];
      if event.Slot() == POWER_LEVELS_SLOT && POWER_LEVELS_SLOT !in state {
        AcceptedOverZero(event, state, store);
      }
    }
  }

  lemma {:induction false} SlotUntouched(ids: seq<EventId>, slot: Slot, base: StateMap, store: EventStore, rules: Rules)
    requires forall id | id in ids && id in store :: store[id].Slot() != slot
    ensures slot in Fold(ids, base, store, rules) <==> slot in base
  {
    if ids != [] {
      SlotUntouched(ids[..|ids| - 1], slot, base, store, rules);
    }
  }

  lemma WorkingLevelsIff(agreed: StateMap, full: set<EventId>, store: EventStore)
    requires MainlineOrder.LinksAcyclic(store)
    requires POWER_LEVELS_SLOT !in agreed
    ensures POWER_LEVELS_SLOT in WorkingState(agreed, full, store, RoomRules) <==>
            && CREATE_SLOT in agreed
            && exists id :: id in PowerSort.PowerOrder(ControlOf(full, store), store) && GrantsNothing(store[id])
  {
    var control := PowerSort.PowerOrder(ControlOf(full, store), store);
    ControlOrderMembers(full, store);
    ControlPass(control, agreed, store);
    var partial := Fold(control, agreed, store, RoomRules);
    var others := MainlineOrder.OrderOf(OthersOf(full, store), PowerLevelsEvent(partial), store);
    OrderMembers(others, OthersOf(full, store));
    assert forall id | id in others :: id in OthersOf(full, store);
    SlotUntouched(others, POWER_LEVELS_SLOT, partial, store, RoomRules);
    FoldConcat(control, others, agreed, store, RoomRules);
  }

  lemma ControlOrderComplete(full: set<EventId>, store: EventStore)
    requires PowerSort.AcyclicWithin(store.Keys, store)
    ensures forall id | id in ControlOf(full, store) :: id in PowerSort.PowerOrder(ControlOf(full, store), store)
  {
    AcyclicSubset(ControlOf(full, store), store);
    PowerSort.CompleteIffAcyclic(PowerSort.PowerOrder(ControlOf(full, store), store), ControlOf(full, store), store);
  }

  /** A disputed power-levels slot receives a value exactly when the create event is agreed on and
      some ordered control event grants nothing; on an acyclic auth graph, some stored event of the
      full conflicted set. */
  lemma DisputedLevelsFilledIff(forks: set<StateMap>, chains: set<set<EventId>>, store: EventStore)
    requires MainlineOrder.LinksAcyclic(store)
    requires POWER_LEVELS_SLOT in Conflicted(forks)
    ensures var full := FullSet(forks, chains);
            POWER_LEVELS_SLOT in Resolved(forks, chains, store, RoomRules) <==>
            && CREATE_SLOT in Unconflicted(forks)
            && exists id :: id in PowerSort.PowerOrder(ControlOf(full, store), store) && GrantsNothing(store[id])
    ensures PowerSort.AcyclicWithin(store.Keys, store) ==>
              (POWER_LEVELS_SLOT in Resolved(forks, chains, store, RoomRules) <==>
                 && CREATE_SLOT in Unconflicted(forks)
                 && exists id :: id in FullSet(forks, chains) && id in store && GrantsNothing(store[id]))
  {
    var full := FullSet(forks, chains);
    PartitionCovers(forks);
    WorkingLevelsIff(Unconflicted(forks), full, store);
    ControlOrderMembers(full, store);
    if PowerSort.AcyclicWithin(store.Keys, store) {
      ControlOrderComplete(full, store);
      assert forall id | id in full && id in store && GrantsNothing(store[id]) :: id in ControlOf(full, store);
    }
  }
}
