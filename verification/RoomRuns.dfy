/** What every run of events accepted by the composed room rules keeps.

    A run is any list of event ids folded over any base state; rejected events leave the state
    alone, so the properties below range over exactly the accepted ones. */
module RoomRuns {
  import opened Basics
  import opened RoomEvents
  import opened AuthRules

  function StateAt(ids: seq<EventId>, k: nat, base: StateMap, store: EventStore): StateMap
    requires k <= |ids|
  {
    Fold(ids[..k], base, store, RoomRules)
  }

  ghost predicate Accepted(ids: seq<EventId>, k: int, base: StateMap, store: EventStore) {
    AcceptedAt(ids, k, base, store, RoomRules)
  }

  /** The `k`-th event is accepted and sets `user`'s membership to `membership`. */
  ghost predicate SetsMembership(ids: seq<EventId>, k: int, user: UserId, membership: string,
                                 base: StateMap, store: EventStore) {
    && Accepted(ids, k, base, store)
    && store[ids[k]].eventType == MEMBER_TYPE
    && store[ids[k]].stateKey == user
    && store[ids[k]].membership == Some(membership)
  }

  lemma StateStep(ids: seq<EventId>, k: nat, base: StateMap, store: EventStore)
    requires k < |ids|
    ensures StateAt(ids, k + 1, base, store) ==
            if Accepted(ids, k, base, store)
            then StateAt(ids, k, base, store)[store[ids[k]].Slot() := ids[k]]
            else StateAt(ids, k, base, store)
  {
    FoldNext(ids, k, base, store, RoomRules);
  }

  // ---------------------------------------------------------------- power levels

  /** Every user, listed or not, is at most at `cap`. */
  ghost predicate Capped(levels: PowerLevels, cap: int) {
    forall user: UserId :: levels.ForUser(user) <= cap
  }

  /** `top` is strictly above every other user. */
  ghost predicate Above(levels: PowerLevels, top: UserId) {
    forall user: UserId | user != top :: levels.ForUser(user) < levels.ForUser(top)
  }

  /** A user's level is either kept or was and becomes at most the sender's. */
  lemma LevelChangeBounded(event: Event, state: StateMap, store: EventStore, user: UserId)
    requires RoomRules(event, state, store)
    requires event.eventType == POWER_LEVELS_TYPE
    ensures event.levels.Some?
    ensures var old_, new_ := CurrentLevels(state, store), event.levels.value;
            || new_.ForUser(user) == old_.ForUser(user)
            || (old_.ForUser(user) <= old_.ForUser(event.sender) && new_.ForUser(user) <= old_.ForUser(event.sender))
  {
    RoomRulesAreAllFour(event, state, store);
    var old_, new_ := CurrentLevels(state, store), event.levels.value;
    var change := (old_.ForUser(user), new_.ForUser(user));
    if change.0 != change.1 {
      if user in old_.users.Keys + new_.users.Keys {
        assert change == (LevelAt(old_.users, user, old_.usersDefault), LevelAt(new_.users, user, new_.usersDefault));
        assert change in EntryChanges(old_.users, old_.usersDefault, new_.users, new_.usersDefault);
      } else {
        assert change == Scalars(old_, new_)[0];
        assert change in ScalarChanges(old_, new_);
      }
      assert change in ChangeSet(old_, new_);
    }
  }

  /** `event` is an authorised change by `sender` of `target`'s level. */
  ghost predicate ChangesLevelOf(event: Event, sender: UserId, target: UserId, state: StateMap, store: EventStore) {
    && event.sender == sender && event.eventType == POWER_LEVELS_TYPE
    && RoomRules(event, state, store)
    && event.levels.Some? && InI64(event.levels.value)
    && event.levels.value.ForUser(target) != CurrentLevels(state, store).ForUser(target)
  }

  function Relevelled(sender: UserId, target: UserId, levels: PowerLevels, level: int): Event {
    var changed := levels.(users := levels.users[target := level]);
    Event([], POWER_LEVELS_TYPE, "", 0, 0, [], sender, Some(changed), None, None, None)
  }

  lemma RelevelledChanges(sender: UserId, target: UserId, levels: PowerLevels, level: int)
    requires level != levels.ForUser(target)
    ensures ChangeSet(levels, Relevelled(sender, target, levels, level).levels.value) == {(levels.ForUser(target), level)}
  {
    var changed := Relevelled(sender, target, levels, level).levels.value;
    assert ScalarChanges(levels, changed) == {};
    assert EntryChanges(levels.events, levels.eventsDefault, changed.events, changed.eventsDefault) == {};
    var change := (levels.ForUser(target), level);
    assert target in levels.users.Keys + changed.users.Keys;
    assert change == (LevelAt(levels.users, target, levels.usersDefault), LevelAt(changed.users, target, changed.usersDefault));
    assert change in EntryChanges(levels.users, levels.usersDefault, changed.users, changed.usersDefault);
  }

  /** The sender may send power levels in a created room and is at or above the target; at the least
      level of all there is nothing to change to. */
  ghost predicate MayRelevel(sender: UserId, target: UserId, state: StateMap, store: EventStore) {
    var levels := CurrentLevels(state, store);
    && CREATE_SLOT in state
    && levels.RequiredFor(POWER_LEVELS_TYPE, true) <= levels.ForUser(sender)
    && levels.ForUser(target) <= levels.ForUser(sender)
    && I64_MIN < levels.ForUser(sender)
  }

  /** Who can change whose level, over 64-bit levels. */
  lemma CanChangeLevelIff(sender: UserId, target: UserId, state: StateMap, store: EventStore)
    requires InI64(CurrentLevels(state, store))
    ensures (exists event :: ChangesLevelOf(event, sender, target, state, store)) <==> MayRelevel(sender, target, state, store)
  {
    var levels := CurrentLevels(state, store);
    forall event | ChangesLevelOf(event, sender, target, state, store) ensures MayRelevel(sender, target, state, store) {
      RoomRulesAreAllFour(event, state, store);
      LevelChangeBounded(event, state, store, target);
      assert IsI64(event.levels.value.ForUser(target));
    }
    if MayRelevel(sender, target, state, store) {
      var old_ := levels.ForUser(target);
      var level := if old_ == I64_MIN then old_ + 1 else old_ - 1;
      var event := Relevelled(sender, target, levels, level);
      RelevelledChanges(sender, target, levels, level);
      RoomRulesAreAllFour(event, state, store);
      assert ChangesLevelOf(event, sender, target, state, store);
    }
  }

  /** One step moves the levels only by an accepted power-levels event. */
  lemma LevelsStep(ids: seq<EventId>, k: nat, base: StateMap, store: EventStore, user: UserId)
    requires k < |ids|
    ensures var old_, new_ := CurrentLevels(StateAt(ids, k, base, store), store),
                              CurrentLevels(StateAt(ids, k + 1, base, store), store);
            || new_.ForUser(user) == old_.ForUser(user)
            || (&& Accepted(ids, k, base, store)
                && old_.ForUser(user) <= old_.ForUser(store[ids[k]].sender)
                && new_.ForUser(user) <= old_.ForUser(store[ids[k]].sender))
  {
    StateStep(ids, k, base, store);
    var state := StateAt(ids, k, base, store);
    if Accepted(ids, k, base, store) && store[ids[k]].Slot() == POWER_LEVELS_SLOT {
      LevelChangeBounded(store[ids[k]], state, store, user);
    }
  }

  /** No run raises anyone above a cap that holds for every user of the base state. */
  lemma {:induction false} NoEscalation(ids: seq<EventId>, k: nat, base: StateMap, store: EventStore, cap: int)
    requires k <= |ids|
    requires Capped(CurrentLevels(base, store), cap)
    ensures Capped(CurrentLevels(StateAt(ids, k, base, store), store), cap)
  {
    if k > 0 {
      NoEscalation(ids, k - 1, base, store, cap);
      forall user: UserId ensures CurrentLevels(StateAt(ids, k, base, store), store).ForUser(user) <= cap {
        LevelsStep(ids, k - 1, base, store, user);
      }
    }
  }

  /** A user strictly above everyone else keeps that position, keeps the exact level, stays joined,
      and is neither kicked nor banned, for as long as they send nothing that is accepted. */
  lemma {:induction false} TopUserUntouchable(ids: seq<EventId>, k: nat, base: StateMap, store: EventStore, top: UserId)
    requires k <= |ids|
    requires Above(CurrentLevels(base, store), top)
    requires forall j | 0 <= j < k && Accepted(ids, j, base, store) :: store[ids[j]].sender != top
    ensures var levels := CurrentLevels(StateAt(ids, k, base, store), store);
            levels.ForUser(top) == CurrentLevels(base, store).ForUser(top) && Above(levels, top)
    ensures MembershipOf(top, base, store) == "join" ==>
              MembershipOf(top, StateAt(ids, k, base, store), store) == "join"
    ensures forall j | 0 <= j < k :: !SetsMembership(ids, j, top, "leave", base, store)
                                  && !SetsMembership(ids, j, top, "ban", base, store)
  {
    if k > 0 {
      TopUserUntouchable(ids, k - 1, base, store, top);
      TopLevelsStep(ids, k - 1, base, store, top);
      TopMembershipStep(ids, k - 1, base, store, top);
    }
  }

  lemma TopLevelsStep(ids: seq<EventId>, k: nat, base: StateMap, store: EventStore, top: UserId)
    requires k < |ids|
    requires Above(CurrentLevels(StateAt(ids, k, base, store), store), top)
    requires Accepted(ids, k, base, store) ==> store[ids[k]].sender != top
    ensures var old_, new_ := CurrentLevels(StateAt(ids, k, base, store), store),
                              CurrentLevels(StateAt(ids, k + 1, base, store), store);
            new_.ForUser(top) == old_.ForUser(top) && Above(new_, top)
  {
    LevelsStep(ids, k, base, store, top);
    var old_, new_ := CurrentLevels(StateAt(ids, k, base, store), store), CurrentLevels(StateAt(ids, k + 1, base, store), store);
    forall user: UserId | user != top ensures new_.ForUser(user) < new_.ForUser(top) {
      LevelsStep(ids, k, base, store, user);
    }
  }

  lemma TopMembershipStep(ids: seq<EventId>, k: nat, base: StateMap, store: EventStore, top: UserId)
    requires k < |ids|
    requires Above(CurrentLevels(StateAt(ids, k, base, store), store), top)
    requires Accepted(ids, k, base, store) ==> store[ids[k]].sender != top
    ensures MembershipOf(top, StateAt(ids, k, base, store), store) == "join" ==>
              MembershipOf(top, StateAt(ids, k + 1, base, store), store) == "join"
    ensures !SetsMembership(ids, k, top, "leave", base, store)
    ensures !SetsMembership(ids, k, top, "ban", base, store)
  {
    StateStep(ids, k, base, store);
    if Accepted(ids, k, base, store) {
      RoomRulesAreAllFour(store[ids[k]], StateAt(ids, k, base, store), store);
    }
  }

  // ---------------------------------------------------------------- bans

  /** An accepted leave for `user` sent by a different, joined user with at least the kick level and
      strictly more power. */
  ghost predicate UnbanAt(ids: seq<EventId>, k: int, user: UserId, base: StateMap, store: EventStore) {
    && SetsMembership(ids, k, user, "leave", base, store)
    && var sender := store[ids[k]].sender;
       var state := StateAt(ids, k, base, store);
       var levels := CurrentLevels(state, store);
       && sender != user
       && MembershipOf(sender, state, store) == "join"
       && levels.ForUser(sender) >= levels.kick
       && levels.ForUser(sender) > levels.ForUser(user)
  }

  lemma BanStep(ids: seq<EventId>, k: nat, base: StateMap, store: EventStore, user: UserId)
    requires k < |ids|
    requires MembershipOf(user, StateAt(ids, k, base, store), store) == "ban"
    ensures !SetsMembership(ids, k, user, "join", base, store)
    ensures !SetsMembership(ids, k, user, "invite", base, store)
    ensures !SetsMembership(ids, k, user, "knock", base, store)
    ensures UnbanAt(ids, k, user, base, store)
         || MembershipOf(user, StateAt(ids, k + 1, base, store), store) == "ban"
  {
    StateStep(ids, k, base, store);
    if Accepted(ids, k, base, store) {
      RoomRulesAreAllFour(store[ids[k]], StateAt(ids, k, base, store), store);
    }
  }

  lemma {:induction false} BanHolds(ids: seq<EventId>, i: nat, j: nat, base: StateMap, store: EventStore, user: UserId)
    requires i <= j <= |ids|
    requires MembershipOf(user, StateAt(ids, i, base, store), store) == "ban"
    requires forall k | i <= k < j :: !UnbanAt(ids, k, user, base, store)
    ensures MembershipOf(user, StateAt(ids, j, base, store), store) == "ban"
    decreases j
  {
    if i < j {
      BanHolds(ids, i, j - 1, base, store, user);
      BanStep(ids, j - 1, base, store, user);
    }
  }

  /** Between a ban of `user` and their next join, invite or knock lies an unban. */
  lemma BanNeedsUnban(ids: seq<EventId>, i: nat, j: nat, base: StateMap, store: EventStore, user: UserId)
    requires i <= j < |ids|
    requires MembershipOf(user, StateAt(ids, i, base, store), store) == "ban"
    requires || SetsMembership(ids, j, user, "join", base, store)
             || SetsMembership(ids, j, user, "invite", base, store)
             || SetsMembership(ids, j, user, "knock", base, store)
    ensures exists k :: i <= k < j && UnbanAt(ids, k, user, base, store)
  {
    if forall k | i <= k < j :: !UnbanAt(ids, k, user, base, store) {
      BanHolds(ids, i, j, base, store, user);
      BanStep(ids, j, base, store, user);
      assert false;
    }
  }

  // ---------------------------------------------------------------- invitations

  /** An accepted invite of `user` by a joined user with the invite level. */
  ghost predicate InviteAt(ids: seq<EventId>, k: int, user: UserId, base: StateMap, store: EventStore) {
    && SetsMembership(ids, k, user, "invite", base, store)
    && var sender := store[ids[k]].sender;
       var state := StateAt(ids, k, base, store);
       var levels := CurrentLevels(state, store);
       && MembershipOf(sender, state, store) == "join"
       && levels.ForUser(sender) >= levels.invite
  }

  /** Nothing but an invitation can let `user` in: the join rule admits no uninvited join and the
      room was not created by them. */
  ghost predicate ClosedTo(user: UserId, state: StateMap, store: EventStore) {
    && CurrentJoinRule(state, store) !in {"public", "restricted", "knock_restricted"}
    && Creator(state, store) != Some(user)
  }

  ghost predicate Outside(user: UserId, state: StateMap, store: EventStore) {
    MembershipOf(user, state, store) !in {"invite", "join"}
  }

  lemma OutsideStep(ids: seq<EventId>, k: nat, base: StateMap, store: EventStore, user: UserId)
    requires k < |ids|
    requires Outside(user, StateAt(ids, k, base, store), store)
    requires ClosedTo(user, StateAt(ids, k, base, store), store)
    ensures !SetsMembership(ids, k, user, "join", base, store)
    ensures InviteAt(ids, k, user, base, store) || Outside(user, StateAt(ids, k + 1, base, store), store)
  {
    StateStep(ids, k, base, store);
    if Accepted(ids, k, base, store) {
      RoomRulesAreAllFour(store[ids[k]], StateAt(ids, k, base, store), store);
    }
  }

  lemma {:induction false} OutsideHolds(ids: seq<EventId>, j: nat, base: StateMap, store: EventStore, user: UserId)
    requires j <= |ids|
    requires Outside(user, base, store)
    requires forall k | 0 <= k < j :: ClosedTo(user, StateAt(ids, k, base, store), store)
    requires forall k | 0 <= k < j :: !InviteAt(ids, k, user, base, store)
    ensures Outside(user, StateAt(ids, j, base, store), store)
  {
    if j > 0 {
      OutsideHolds(ids, j - 1, base, store, user);
      OutsideStep(ids, j - 1, base, store, user);
    }
  }

  /** In a room closed to `user` throughout, every join of theirs follows an accepted invite. */
  lemma JoinNeedsInvite(ids: seq<EventId>, j: nat, base: StateMap, store: EventStore, user: UserId)
    requires Outside(user, base, store)
    requires SetsMembership(ids, j, user, "join", base, store)
    requires forall k | 0 <= k <= j :: ClosedTo(user, StateAt(ids, k, base, store), store)
    ensures exists k :: 0 <= k < j && InviteAt(ids, k, user, base, store)
  {
    if forall k | 0 <= k < j :: !InviteAt(ids, k, user, base, store) {
      OutsideHolds(ids, j, base, store, user);
      OutsideStep(ids, j, base, store, user);
      assert false;
    }
  }
}
