/** Events, power levels and state maps of the state-resolution engine. */
module RoomEvents {
  import opened Basics
  import opened ByteOrder

  /** Event ids are Rust strings; only their bytewise order matters to resolution. */
  type EventId = Bytes

  type UserId = string

  /** A slot of room state: an event type and a state key. */
  type Slot = (string, string)

  type StateMap = map<Slot, EventId>

  type EventStore = map<EventId, Event>

  datatype PowerLevels = PowerLevels(
    users: map<UserId, int>,
    usersDefault: int,
    events: map<string, int>,
    eventsDefault: int,
    stateDefault: int,
    invite: int,
    kick: int,
    ban: int)
  {
    function ForUser(user: UserId): int {
      if user in users then users[user] else usersDefault
    }

    function RequiredFor(eventType: string, isState: bool): int {
      if eventType in events then events[eventType]
      else if isState then stateDefault else eventsDefault
    }
  }

  const I64_MIN: int := -TWO_63

  predicate IsI64(n: int) {
    I64_MIN <= n < TWO_63
  }

  /** Every level is a 64-bit integer. */
  predicate InI64(levels: PowerLevels) {
    && (forall user | user in levels.users :: IsI64(levels.users[user]))
    && (forall kind | kind in levels.events :: IsI64(levels.events[kind]))
    && IsI64(levels.usersDefault) && IsI64(levels.eventsDefault) && IsI64(levels.stateDefault)
    && IsI64(levels.invite) && IsI64(levels.kick) && IsI64(levels.ban)
  }

  /** The levels in force when no power-levels event is in the state. */
  const ZERO_LEVELS := PowerLevels(map[], 0, map[], 0, 0, 0, 0, 0)

  datatype Event = Event(
    id: EventId,
    eventType: string,
    stateKey: string,
    power: int,
    ts: nat,
    auth: seq<EventId>,
    sender: UserId,
    levels: Option<PowerLevels>,
    membership: Option<string>,
    joinRule: Option<string>,
    authorisedVia: Option<UserId>)
  {
    function Slot(): Slot { (eventType, stateKey) }
  }

  const CREATE_TYPE := "m.room.create"
  const MEMBER_TYPE := "m.room.member"
  const POWER_LEVELS_TYPE := "m.room.power_levels"
  const JOIN_RULES_TYPE := "m.room.join_rules"

  const CREATE_SLOT: Slot := (CREATE_TYPE, "")
  const POWER_LEVELS_SLOT: Slot := (POWER_LEVELS_TYPE, "")
  const JOIN_RULES_SLOT: Slot := (JOIN_RULES_TYPE, "")

  /** The store is a by-id lookup. */
  ghost predicate KeyedById(store: EventStore) {
    forall id | id in store :: store[id].id == id
  }

  /** An authorisation rule set, injected into the engine. */
  type Rules = (Event, StateMap, EventStore) -> bool
}
