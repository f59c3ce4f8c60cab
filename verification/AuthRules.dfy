/** The room-version authorisation rules and the fold that applies them. */
module AuthRules {
  import opened Basics
  import opened RoomEvents

  function CurrentLevels(state: StateMap, store: EventStore): PowerLevels {
    if POWER_LEVELS_SLOT in state && state[POWER_LEVELS_SLOT] in store
       && store[state[POWER_LEVELS_SLOT]].levels.Some?
    then store[state[POWER_LEVELS_SLOT]].levels.value
    else ZERO_LEVELS
  }

  function MembershipOf(user: UserId, state: StateMap, store: EventStore): string {
    var slot := (MEMBER_TYPE, user);
    if slot in state && state[slot] in store && store[state[slot]].membership.Some?
    then store[state[slot]].membership.value
    else "leave"
  }

  function CurrentJoinRule(state: StateMap, store: EventStore): string {
    if JOIN_RULES_SLOT in state && state[JOIN_RULES_SLOT] in store
       && store[state[JOIN_RULES_SLOT]].joinRule.Some?
    then store[state[JOIN_RULES_SLOT]].joinRule.value
    else "invite"
  }

  /** The sender of the create event in force, if it is in the store. */
  function Creator(state: StateMap, store: EventStore): Option<UserId> {
    if CREATE_SLOT in state && state[CREATE_SLOT] in store
    then Some(store[state[CREATE_SLOT]].sender)
    else None
  }

  predicate PowerLevelRules(event: Event, state: StateMap, store: EventStore) {
    var levels := CurrentLevels(state, store);
    levels.ForUser(event.sender) >= levels.RequiredFor(event.eventType, true)
  }

  predicate CreateRules(event: Event, state: StateMap, store: EventStore) {
    if event.eventType == CREATE_TYPE
    then event.auth == [] && event.stateKey == ""
    else CREATE_SLOT in state
  }

  predicate IsBootstrapJoin(event: Event, state: StateMap, store: EventStore) {
    && Creator(state, store) == Some(event.sender)
    && event.auth == [state[CREATE_SLOT]]
  }

  predicate JoinAllowed(event: Event, state: StateMap, store: EventStore) {
    var levels := CurrentLevels(state, store);
    var current := MembershipOf(event.stateKey, state, store);
    && event.sender == event.stateKey
    && current != "ban"
    && (|| IsBootstrapJoin(event, state, store)
        || current == "invite" || current == "join"
        || match CurrentJoinRule(state, store)
           case "public" => true
           case "restricted" | "knock_restricted" =>
             && event.authorisedVia.Some?
             && MembershipOf(event.authorisedVia.value, state, store) == "join"
             && levels.ForUser(event.authorisedVia.value) >= levels.invite
           case _ => false)
  }

  predicate MembershipRules(event: Event, state: StateMap, store: EventStore) {
    event.eventType == MEMBER_TYPE ==>
      && event.membership.Some?
      && var sender, target := event.sender, event.stateKey;
         var levels := CurrentLevels(state, store);
         var senderLevel := levels.ForUser(sender);
         var senderMembership := MembershipOf(sender, state, store);
         var targetMembership := MembershipOf(target, state, store);
         match event.membership.value
         case "join" => JoinAllowed(event, state, store)
         case "invite" =>
           && senderMembership == "join"
           && targetMembership != "join" && targetMembership != "ban"
           && senderLevel >= levels.invite
         case "leave" =>
           if sender == target
           then senderMembership == "join" || senderMembership == "invite" || senderMembership == "knock"
           else
             && senderMembership == "join"
             && senderLevel >= levels.kick
             && senderLevel > levels.ForUser(target)
         case "ban" =>
           && senderMembership == "join"
           && senderLevel >= levels.ban
           && senderLevel > levels.ForUser(target)
         case "knock" =>
           && sender == target
           && (CurrentJoinRule(state, store) == "knock" || CurrentJoinRule(state, store) == "knock_restricted")
           && targetMembership != "join" && targetMembership != "ban"
         case _ => false
  }

  function LevelAt(entries: map<string, int>, key: string, fallback: int): int {
    if key in entries then entries[key] else fallback
  }

  /** Every `(old, new)` pair of levels that differs between two contents. */
  function ChangeSet(old_: PowerLevels, new_: PowerLevels): set<(int, int)> {
    ScalarChanges(old_, new_)
    + EntryChanges(old_.users, old_.usersDefault, new_.users, new_.usersDefault)
    + EntryChanges(old_.events, old_.eventsDefault, new_.events, new_.eventsDefault)
  }

  function Scalars(old_: PowerLevels, new_: PowerLevels): seq<(int, int)> {
    [(old_.usersDefault, new_.usersDefault), (old_.eventsDefault, new_.eventsDefault),
     (old_.stateDefault, new_.stateDefault), (old_.invite, new_.invite),
     (old_.kick, new_.kick), (old_.ban, new_.ban)]
  }

  function ScalarChanges(old_: PowerLevels, new_: PowerLevels): set<(int, int)> {
    set c | c in Scalars(old_, new_) && c.0 != c.1
  }

  function EntryChanges(old_: map<string, int>, oldDefault: int,
                        new_: map<string, int>, newDefault: int): set<(int, int)> {
    ChangesOver(old_.Keys + new_.Keys, old_, oldDefault, new_, newDefault)
  }

  function ChangesOver(keys: set<string>, old_: map<string, int>, oldDefault: int,
                       new_: map<string, int>, newDefault: int): set<(int, int)> {
    set k | k in keys && LevelAt(old_, k, oldDefault) != LevelAt(new_, k, newDefault)
          :: (LevelAt(old_, k, oldDefault), LevelAt(new_, k, newDefault))
  }

  predicate PowerLevelMutationRules(event: Event, state: StateMap, store: EventStore) {
    event.eventType == POWER_LEVELS_TYPE ==>
      && event.levels.Some?
      && var old_ := CurrentLevels(state, store);
         forall c | c in ChangeSet(old_, event.levels.value) ::
           c.0 <= old_.ForUser(event.sender) && c.1 <= old_.ForUser(event.sender)
  }

  /** Authorised only when every contained rule authorises. */
  predicate AllOf(rules: seq<Rules>, event: Event, state: StateMap, store: EventStore) {
    forall i | 0 <= i < |rules| :: rules[i](event, state, store)
  }

  /** The rule set the server composes. */
  predicate RoomRules(event: Event, state: StateMap, store: EventStore) {
    AllOf([CreateRules, PowerLevelRules, PowerLevelMutationRules, MembershipRules], event, state, store)
  }

  lemma RoomRulesAreAllFour(event: Event, state: StateMap, store: EventStore)
    ensures RoomRules(event, state, store) <==>
              && CreateRules(event, state, store)
              && PowerLevelRules(event, state, store)
              && PowerLevelMutationRules(event, state, store)
              && MembershipRules(event, state, store)
  {
    var rules: seq<Rules> := [CreateRules, PowerLevelRules, PowerLevelMutationRules, MembershipRules];
    assert AllOf(rules, event, state, store) <==>
             rules[0](event, state, store) && rules[1](event, state, store)
             && rules[2](event, state, store) && rules[3](event, state, store);
  }

  /** The vector of changed levels, collected key by key. */
  method LevelChanges(old_: PowerLevels, new_: PowerLevels) returns (changes: seq<(int, int)>)
    ensures (set c | c in changes) == ChangeSet(old_, new_)
  {
    var scalars := Scalars(old_, new_);
    changes := [];
    for i := 0 to |scalars|
      invariant forall c :: c in changes <==> c in scalars[..i] && c.0 != c.1
    {
      assert scalars[..i + 1] == scalars[..i] + [scalars[i]];
      if scalars[i].0 != scalars[i].1 {
        changes := changes + [scalars[i]];
      }
    }
    assert scalars[..|scalars|] == scalars;
    changes := AppendEntryChanges(changes, old_.users, old_.usersDefault, new_.users, new_.usersDefault);
    changes := AppendEntryChanges(changes, old_.events, old_.eventsDefault, new_.events, new_.eventsDefault);
  }

  method AppendEntryChanges(before: seq<(int, int)>, old_: map<string, int>, oldDefault: int,
                            new_: map<string, int>, newDefault: int)
    returns (changes: seq<(int, int)>)
    ensures (set c | c in changes) == (set c | c in before) + EntryChanges(old_, oldDefault, new_, newDefault)
  {
    changes := before;
    var keys := old_.Keys + new_.Keys;
    ghost var done := {};
    while keys != {}
      invariant keys !! done && keys + done == old_.Keys + new_.Keys
      invariant forall c :: c in changes <==>
                            c in before || c in ChangesOver(done, old_, oldDefault, new_, newDefault)
      decreases keys
    {
      var k :| k in keys;
      var o, n := LevelAt(old_, k, oldDefault), LevelAt(new_, k, newDefault);
      if o != n {
        changes := changes + [(o, n)];
      }
      assert ChangesOver(done + {k}, old_, oldDefault, new_, newDefault) ==
             ChangesOver(done, old_, oldDefault, new_, newDefault) + (if o != n then {(o, n)} else {});
      keys, done := keys - {k}, done + {k};
    }
    assert done == old_.Keys + new_.Keys;
  }

  /** Fold one event into the state when it is stored and authorised. */
  function Step(id: EventId, state: StateMap, store: EventStore, rules: Rules): StateMap {
    if id in store && rules(store[id], state, store) then state[store[id].Slot() := id] else state
  }

  /** The state after folding `ids` in order over `base`. */
  function Fold(ids: seq<EventId>, base: StateMap, store: EventStore, rules: Rules): StateMap {
    if ids == [] then base
    else Step(ids[|ids| - 1], Fold(ids[..|ids| - 1], base, store, rules), store, rules)
  }

  lemma FoldNext(ids: seq<EventId>, k: nat, base: StateMap, store: EventStore, rules: Rules)
    requires k < |ids|
    ensures Fold(ids[..k + 1], base, store, rules)
         == Step(ids[k], Fold(ids[..k], base, store, rules), store, rules)
  {
    assert ids[..k + 1][..k] == ids[..k];
  }

  method IterativeAuthChecks(events: seq<EventId>, base: StateMap, store: EventStore, rules: Rules)
    returns (state: StateMap)
    ensures state == Fold(events, base, store, rules)
  {
    state := base;
    for i := 0 to |events|
      invariant state == Fold(events[..i], base, store, rules)
    {
      FoldNext(events, i, base, store, rules);
      var id := events[i];
      if id in store && rules(store[id], state, store) {
        state := state[store[id].Slot() := id];
      }
    }
    assert events[..|events|] == events;
  }

  /** The `k`-th event is folded in, judged against the state before it. */
  ghost predicate AcceptedAt(ids: seq<EventId>, k: int, base: StateMap, store: EventStore, rules: Rules) {
    && 0 <= k < |ids|
    && ids[k] in store
    && rules(store[ids[k]], Fold(ids[..k], base, store, rules), store)
  }

  /** `k` is the last accepted event for `slot`. */
  ghost predicate LastWriter(ids: seq<EventId>, k: int, slot: Slot, base: StateMap, store: EventStore, rules: Rules) {
    && AcceptedAt(ids, k, base, store, rules)
    && store[ids[k]].Slot() == slot
    && forall j | k < j < |ids| && AcceptedAt(ids, j, base, store, rules) :: store[ids[j]].Slot() != slot
  }

  lemma AcceptedInPrefix(ids: seq<EventId>, n: nat, base: StateMap, store: EventStore, rules: Rules)
    requires n <= |ids|
    ensures forall k | 0 <= k < n ::
              AcceptedAt(ids, k, base, store, rules) <==> AcceptedAt(ids[..n], k, base, store, rules)
  {
    forall k | 0 <= k < n
      ensures AcceptedAt(ids, k, base, store, rules) <==> AcceptedAt(ids[..n], k, base, store, rules)
    {
      assert ids[..n][..k] == ids[..k];
    }
  }

  lemma LastWriterKept(ids: seq<EventId>, k: int, slot: Slot, base: StateMap, store: EventStore, rules: Rules)
    requires ids != [] && LastWriter(ids[..|ids| - 1], k, slot, base, store, rules)
    requires AcceptedAt(ids, |ids| - 1, base, store, rules) ==> store[ids[|ids| - 1]].Slot() != slot
    ensures LastWriter(ids, k, slot, base, store, rules)
  {
    AcceptedInPrefix(ids, |ids| - 1, base, store, rules);
  }

  /** A slot of the folded state holds its last accepted writer, or is untouched. */
  lemma {:induction false} FoldProvenance(ids: seq<EventId>, slot: Slot, base: StateMap, store: EventStore, rules: Rules)
    ensures var final := Fold(ids, base, store, rules);
            || (exists k :: LastWriter(ids, k, slot, base, store, rules) && slot in final && final[slot] == ids[k])
            || (&& (forall k | AcceptedAt(ids, k, base, store, rules) :: store[ids[k]].Slot() != slot)
                && (slot in final <==> slot in base)
                && (slot in final ==> final[slot] == base[slot]))
  {
    if ids != [] {
      var n := |ids| - 1;
      var init := ids[..n];
      FoldProvenance(init, slot, base, store, rules);
      if AcceptedAt(ids, n, base, store, rules) && store[ids[n]].Slot() == slot {
        assert LastWriter(ids, n, slot, base, store, rules);
      } else if exists k :: LastWriter(init, k, slot, base, store, rules) {
        var k :| LastWriter(init, k, slot, base, store, rules) && Fold(init, base, store, rules)[slot] == init[k];
        LastWriterKept(ids, k, slot, base, store, rules);
      } else {
        AcceptedInPrefix(ids, n, base, store, rules);
      }
    }
  }
}
