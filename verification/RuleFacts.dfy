/** The room rules read off the events in force: what each kind of event needs to be accepted, stated
    on the stored events and with the type and membership strings written out. */
module RuleFacts {
  import opened Basics
  import opened RoomEvents
  import opened AuthRules

  // ---------------------------------------------------------------- what is in force

  /** The event in force for a slot, when it is stored. */
  ghost predicate InForce(event: Event, eventType: string, stateKey: string, state: StateMap, store: EventStore) {
    (eventType, stateKey) in state && state[(eventType, stateKey)] in store && event == store[state[(eventType, stateKey)]]
  }

  ghost predicate MemberIs(user: UserId, membership: string, state: StateMap, store: EventStore) {
    exists e :: InForce(e, "m.room.member", user, state, store) && e.membership == Some(membership)
  }

  ghost predicate JoinRuleIs(rule: string, state: StateMap, store: EventStore) {
    exists e :: InForce(e, "m.room.join_rules", "", state, store) && e.joinRule == Some(rule)
  }

  ghost predicate CreatedBy(user: UserId, state: StateMap, store: EventStore) {
    exists e :: InForce(e, "m.room.create", "", state, store) && e.sender == user
  }

  ghost predicate LevelsAre(levels: PowerLevels, state: StateMap, store: EventStore) {
    exists e :: InForce(e, "m.room.power_levels", "", state, store) && e.levels == Some(levels)
  }

  /** A membership other than "leave" is that of a stored member event; "leave" is also the default. */
  lemma MembershipIff(user: UserId, membership: string, state: StateMap, store: EventStore)
    ensures MembershipOf(user, state, store) == membership <==>
            || MemberIs(user, membership, state, store)
            || (membership == "leave" && forall other :: !MemberIs(user, other, state, store))
  {
    if e :| InForce(e, "m.room.member", user, state, store) && e.membership.Some? {
      assert MemberIs(user, e.membership.value, state, store);
    }
  }

  lemma JoinRuleIff(rule: string, state: StateMap, store: EventStore)
    ensures CurrentJoinRule(state, store) == rule <==>
            || JoinRuleIs(rule, state, store)
            || (rule == "invite" && forall other :: !JoinRuleIs(other, state, store))
  {
    if e :| InForce(e, "m.room.join_rules", "", state, store) && e.joinRule.Some? {
      assert JoinRuleIs(e.joinRule.value, state, store);
    }
  }

  /** The levels in force are those of the stored power-levels event; without one every level and
      every requirement is zero. */
  lemma LevelsInForce(state: StateMap, store: EventStore, user: UserId, eventType: string)
    ensures forall levels :: LevelsAre(levels, state, store) ==> CurrentLevels(state, store) == levels
    ensures (forall levels :: !LevelsAre(levels, state, store)) ==>
              var none := CurrentLevels(state, store);
              && none.ForUser(user) == 0 && none.RequiredFor(eventType, true) == 0
              && none.invite == 0 && none.kick == 0 && none.ban == 0
  {
    if e :| InForce(e, "m.room.power_levels", "", state, store) && e.levels.Some? {
      assert LevelsAre(e.levels.value, state, store);
    }
  }

  /** A listed user or event type has its listed level, any other the default: for state events and
      for other events. */
  lemma LevelLookups(levels: PowerLevels, user: UserId, eventType: string)
    ensures user in levels.users ==> levels.ForUser(user) == levels.users[user]
    ensures user !in levels.users ==> levels.ForUser(user) == levels.usersDefault
    ensures eventType in levels.events ==>
              levels.RequiredFor(eventType, true) == levels.RequiredFor(eventType, false) == levels.events[eventType]
    ensures eventType !in levels.events ==>
              && levels.RequiredFor(eventType, true) == levels.stateDefault
              && levels.RequiredFor(eventType, false) == levels.eventsDefault
  {
  }

  // ---------------------------------------------------------------- sending

  /** The room is created and the sender has the level its state events of this type require. */
  ghost predicate MaySend(event: Event, state: StateMap, store: EventStore) {
    var levels := CurrentLevels(state, store);
    ("m.room.create", "") in state && levels.RequiredFor(event.eventType, true) <= levels.ForUser(event.sender)
  }

  /** An event with no rules of its own needs just that. */
  lemma SendIff(event: Event, state: StateMap, store: EventStore)
    requires event.eventType !in {"m.room.create", "m.room.member", "m.room.power_levels"}
    ensures RoomRules(event, state, store) <==> MaySend(event, state, store)
  {
    RoomRulesAreAllFour(event, state, store);
  }

  /** A create event stands alone: no auth events, the empty state key, and the level to send it. */
  lemma CreateIff(event: Event, state: StateMap, store: EventStore)
    requires event.eventType == "m.room.create"
    ensures RoomRules(event, state, store) <==>
            var levels := CurrentLevels(state, store);
            && event.auth == [] && event.stateKey == ""
            && levels.RequiredFor("m.room.create", true) <= levels.ForUser(event.sender)
  {
    RoomRulesAreAllFour(event, state, store);
  }

  // ---------------------------------------------------------------- membership

  /** What only the event of the given membership is judged by. */
  ghost predicate IsMember(event: Event, membership: string) {
    event.eventType == "m.room.member" && event.membership == Some(membership)
  }

  /** A joined user with the invite level vouches for the join. */
  ghost predicate VouchedFor(event: Event, state: StateMap, store: EventStore) {
    var levels := CurrentLevels(state, store);
    event.authorisedVia.Some? && MemberIs(event.authorisedVia.value, "join", state, store)
    && levels.invite <= levels.ForUser(event.authorisedVia.value)
  }

  /** The creator's join that depends on the create event alone. */
  ghost predicate FirstJoin(event: Event, state: StateMap, store: EventStore) {
    CreatedBy(event.sender, state, store) && event.auth == [state[("m.room.create", "")]]
  }

  lemma JoinIff(event: Event, state: StateMap, store: EventStore)
    requires IsMember(event, "join")
    ensures RoomRules(event, state, store) <==>
            && MaySend(event, state, store)
            && event.sender == event.stateKey && !MemberIs(event.sender, "ban", state, store)
            && (|| FirstJoin(event, state, store)
                || MemberIs(event.sender, "invite", state, store) || MemberIs(event.sender, "join", state, store)
                || JoinRuleIs("public", state, store)
                || (&& (JoinRuleIs("restricted", state, store) || JoinRuleIs("knock_restricted", state, store))
                    && VouchedFor(event, state, store)))
  {
    RoomRulesAreAllFour(event, state, store);
    MembershipIff(event.stateKey, "ban", state, store);
    MembershipIff(event.stateKey, "invite", state, store);
    MembershipIff(event.stateKey, "join", state, store);
    JoinRuleIff("public", state, store);
    JoinRuleIff("restricted", state, store);
    JoinRuleIff("knock_restricted", state, store);
    if event.authorisedVia.Some? {
      MembershipIff(event.authorisedVia.value, "join", state, store);
    }
    FirstJoinIff(event, state, store);
  }

  lemma FirstJoinIff(event: Event, state: StateMap, store: EventStore)
    ensures IsBootstrapJoin(event, state, store) <==> FirstJoin(event, state, store)
  {
  }

  lemma InviteIff(event: Event, state: StateMap, store: EventStore)
    requires IsMember(event, "invite")
    ensures RoomRules(event, state, store) <==>
            var levels := CurrentLevels(state, store);
            && MaySend(event, state, store)
            && MemberIs(event.sender, "join", state, store)
            && !MemberIs(event.stateKey, "join", state, store) && !MemberIs(event.stateKey, "ban", state, store)
            && levels.invite <= levels.ForUser(event.sender)
  {
    RoomRulesAreAllFour(event, state, store);
    MembershipIff(event.sender, "join", state, store);
    MembershipIff(event.stateKey, "join", state, store);
    MembershipIff(event.stateKey, "ban", state, store);
  }

  /** One's own leave needs a membership to leave; a kick or unban needs the kick level and strictly
      more power than the target. */
  lemma LeaveIff(event: Event, state: StateMap, store: EventStore)
    requires IsMember(event, "leave")
    ensures RoomRules(event, state, store) <==>
            var levels := CurrentLevels(state, store);
            && MaySend(event, state, store)
            && (event.sender == event.stateKey ==>
                  || MemberIs(event.sender, "join", state, store)
                  || MemberIs(event.sender, "invite", state, store)
                  || MemberIs(event.sender, "knock", state, store))
            && (event.sender != event.stateKey ==>
                  && MemberIs(event.sender, "join", state, store)
                  && levels.kick <= levels.ForUser(event.sender)
                  && levels.ForUser(event.stateKey) < levels.ForUser(event.sender))
  {
    RoomRulesAreAllFour(event, state, store);
    MembershipIff(event.sender, "join", state, store);
    MembershipIff(event.sender, "invite", state, store);
    MembershipIff(event.sender, "knock", state, store);
  }

  lemma BanIff(event: Event, state: StateMap, store: EventStore)
    requires IsMember(event, "ban")
    ensures RoomRules(event, state, store) <==>
            var levels := CurrentLevels(state, store);
            && MaySend(event, state, store)
            && MemberIs(event.sender, "join", state, store)
            && levels.ban <= levels.ForUser(event.sender)
            && levels.ForUser(event.stateKey) < levels.ForUser(event.sender)
  {
    RoomRulesAreAllFour(event, state, store);
    MembershipIff(event.sender, "join", state, store);
  }

  lemma KnockIff(event: Event, state: StateMap, store: EventStore)
    requires IsMember(event, "knock")
    ensures RoomRules(event, state, store) <==>
            && MaySend(event, state, store)
            && event.sender == event.stateKey
            && (JoinRuleIs("knock", state, store) || JoinRuleIs("knock_restricted", state, store))
            && !MemberIs(event.sender, "join", state, store) && !MemberIs(event.sender, "ban", state, store)
  {
    RoomRulesAreAllFour(event, state, store);
    JoinRuleIff("knock", state, store);
    JoinRuleIff("knock_restricted", state, store);
    MembershipIff(event.stateKey, "join", state, store);
    MembershipIff(event.stateKey, "ban", state, store);
  }

  /** A member event with any other membership, or none, is never accepted. */
  lemma NoOtherMembership(event: Event, state: StateMap, store: EventStore)
    requires event.eventType == "m.room.member"
    requires forall m | m in {"join", "invite", "leave", "ban", "knock"} :: event.membership != Some(m)
    ensures !RoomRules(event, state, store)
  {
    RoomRulesAreAllFour(event, state, store);
    if event.membership.Some? {
      var m := event.membership.value;
      assert m !in {"join", "invite", "leave", "ban", "knock"};
    }
  }

  /** A user the state says nothing about, in a room without join rules that someone else created,
      cannot join. */
  lemma StrangerCannotJoin(event: Event, state: StateMap, store: EventStore)
    requires IsMember(event, "join")
    requires ("m.room.member", event.sender) !in state && ("m.room.join_rules", "") !in state
    requires !CreatedBy(event.sender, state, store)
    ensures !RoomRules(event, state, store)
  {
    JoinIff(event, state, store);
  }

  /** Who invites, kicks or bans is joined. */
  lemma ActorIsJoined(event: Event, state: StateMap, store: EventStore)
    requires RoomRules(event, state, store)
    requires || IsMember(event, "invite") || IsMember(event, "ban")
             || (IsMember(event, "leave") && event.sender != event.stateKey)
    ensures MemberIs(event.sender, "join", state, store)
  {
    if event.membership == Some("invite") {
      InviteIff(event, state, store);
    } else if event.membership == Some("ban") {
      BanIff(event, state, store);
    } else {
      LeaveIff(event, state, store);
    }
  }

  // ---------------------------------------------------------------- power levels

  /** A level may stay, or move when neither its old nor its new value is above `reach`. */
  ghost predicate Moves(old_: int, new_: int, reach: int) {
    old_ == new_ || (old_ <= reach && new_ <= reach)
  }

  /** Every level of the content, listed or default, moves within `reach`. */
  ghost predicate MovesWithin(old_: PowerLevels, new_: PowerLevels, reach: int) {
    && Moves(old_.usersDefault, new_.usersDefault, reach)
    && Moves(old_.eventsDefault, new_.eventsDefault, reach)
    && Moves(old_.stateDefault, new_.stateDefault, reach)
    && Moves(old_.invite, new_.invite, reach)
    && Moves(old_.kick, new_.kick, reach)
    && Moves(old_.ban, new_.ban, reach)
    && (forall user: UserId :: Moves(old_.ForUser(user), new_.ForUser(user), reach))
    && (forall kind: string :: Moves(old_.RequiredFor(kind, false), new_.RequiredFor(kind, false), reach))
  }

  lemma UserChangeIn(old_: PowerLevels, new_: PowerLevels, user: UserId)
    requires old_.ForUser(user) != new_.ForUser(user)
    ensures (old_.ForUser(user), new_.ForUser(user)) in ChangeSet(old_, new_)
  {
    var change := (old_.ForUser(user), new_.ForUser(user));
    if user in old_.users.Keys + new_.users.Keys {
      assert change == (LevelAt(old_.users, user, old_.usersDefault), LevelAt(new_.users, user, new_.usersDefault));
      assert change in EntryChanges(old_.users, old_.usersDefault, new_.users, new_.usersDefault);
    } else {
      assert change == Scalars(old_, new_)[0];
    }
  }

  lemma KindChangeIn(old_: PowerLevels, new_: PowerLevels, kind: string)
    requires old_.RequiredFor(kind, false) != new_.RequiredFor(kind, false)
    ensures (old_.RequiredFor(kind, false), new_.RequiredFor(kind, false)) in ChangeSet(old_, new_)
  {
    var change := (old_.RequiredFor(kind, false), new_.RequiredFor(kind, false));
    if kind in old_.events.Keys + new_.events.Keys {
      assert change == (LevelAt(old_.events, kind, old_.eventsDefault), LevelAt(new_.events, kind, new_.eventsDefault));
      assert change in EntryChanges(old_.events, old_.eventsDefault, new_.events, new_.eventsDefault);
    } else {
      assert change == Scalars(old_, new_)[1];
    }
  }

  lemma ScalarChangesIn(old_: PowerLevels, new_: PowerLevels, reach: int)
    requires forall c | c in ChangeSet(old_, new_) :: c.0 <= reach && c.1 <= reach
    ensures forall i | 0 <= i < |Scalars(old_, new_)| :: Moves(Scalars(old_, new_)[i].0, Scalars(old_, new_)[i].1, reach)
  {
    var scalars := Scalars(old_, new_);
    forall i | 0 <= i < |scalars| ensures Moves(scalars[i].0, scalars[i].1, reach) {
      if scalars[i].0 != scalars[i].1 {
        assert scalars[i] in ScalarChanges(old_, new_);
      }
    }
  }

  /** The collected changes are within reach exactly when every level is. */
  lemma ChangesWithinIff(old_: PowerLevels, new_: PowerLevels, reach: int)
    ensures (forall c | c in ChangeSet(old_, new_) :: c.0 <= reach && c.1 <= reach) <==> MovesWithin(old_, new_, reach)
  {
    if forall c | c in ChangeSet(old_, new_) :: c.0 <= reach && c.1 <= reach {
      ScalarChangesIn(old_, new_, reach);
      var scalars := Scalars(old_, new_);
      assert Moves(scalars[0].0, scalars[0].1, reach) && Moves(scalars[1].0, scalars[1].1, reach);
      assert Moves(scalars[2].0, scalars[2].1, reach) && Moves(scalars[3].0, scalars[3].1, reach);
      assert Moves(scalars[4].0, scalars[4].1, reach) && Moves(scalars[5].0, scalars[5].1, reach);
      forall user: UserId ensures Moves(old_.ForUser(user), new_.ForUser(user), reach) {
        if old_.ForUser(user) != new_.ForUser(user) {
          UserChangeIn(old_, new_, user);
        }
      }
      forall kind: string ensures Moves(old_.RequiredFor(kind, false), new_.RequiredFor(kind, false), reach) {
        if old_.RequiredFor(kind, false) != new_.RequiredFor(kind, false) {
          KindChangeIn(old_, new_, kind);
        }
      }
    }
    if MovesWithin(old_, new_, reach) {
      forall c | c in ChangeSet(old_, new_) ensures c.0 <= reach && c.1 <= reach {
        ChangeIsMove(old_, new_, reach, c);
      }
    }
  }

  lemma ChangeIsMove(old_: PowerLevels, new_: PowerLevels, reach: int, c: (int, int))
    requires MovesWithin(old_, new_, reach) && c in ChangeSet(old_, new_)
    ensures c.0 <= reach && c.1 <= reach
  {
    if c in EntryChanges(old_.users, old_.usersDefault, new_.users, new_.usersDefault) {
      var user :| user in old_.users.Keys + new_.users.Keys
        && c == (LevelAt(old_.users, user, old_.usersDefault), LevelAt(new_.users, user, new_.usersDefault)) && c.0 != c.1;
      assert c == (old_.ForUser(user), new_.ForUser(user));
    } else if c in EntryChanges(old_.events, old_.eventsDefault, new_.events, new_.eventsDefault) {
      var kind :| kind in old_.events.Keys + new_.events.Keys
        && c == (LevelAt(old_.events, kind, old_.eventsDefault), LevelAt(new_.events, kind, new_.eventsDefault)) && c.0 != c.1;
      assert c == (old_.RequiredFor(kind, false), new_.RequiredFor(kind, false));
    }
  }

  /** A power-levels event carries levels, and every user, event type and threshold it changes was and
      becomes at most the sender's level. */
  lemma PowerLevelsIff(event: Event, state: StateMap, store: EventStore)
    requires event.eventType == "m.room.power_levels"
    ensures RoomRules(event, state, store) <==>
            var levels := CurrentLevels(state, store);
            && MaySend(event, state, store)
            && event.levels.Some? && MovesWithin(levels, event.levels.value, levels.ForUser(event.sender))
  {
    RoomRulesAreAllFour(event, state, store);
    if event.levels.Some? {
      var levels := CurrentLevels(state, store);
      ChangesWithinIff(levels, event.levels.value, levels.ForUser(event.sender));
    }
  }
}
