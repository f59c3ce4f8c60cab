# GaussMatrix in Dafny

A model of the parts of GaussMatrix, a Matrix homeserver, that decide what a room's state is, where
a room lives, what is sent to whom and how it is stored, with proofs about all inputs, all runs and
all reachable states.

| part | modules | source |
|---|---|---|
| state resolution | `RoomEvents`, `AuthRules`, `RuleFacts`, `RoomRuns`, `PowerSort`, `PowerHeap`, `MainlineOrder`, `Forks`, `StateCache`, `Resolution`, `ResolvedLevels`, `Locality` | `src/stateres`, `src/service/gm_resolve.rs` |
| database keys | `KeyFormat`, `KeyCodec`, `KeyScans` | `src/database/ser.rs`, `src/database/de.rs`, `src/database/map` |
| space hierarchy | `SpaceHierarchy`, `SpacePages` | `src/api/client/space.rs` |
| shard ring | `RingHash`, `RingPlacement`, `ShardRing` | `src/shard/ring.rs` |
| federation sender | `FederationSender` | `src/fed/sender.rs` |
| in-memory store | `ByteOrder`, `MemStore` | `src/store` |
| shutdown flags | `ServerFlags` | `src/core/server.rs` |
| shared definitions | `Basics` | |

`dafny verify dfyconfig.toml` checks the whole project.

Code that mutates is imperative here: the cache, the serializer and deserializer, the short-id
table, the ring, the sender, the batch, the backend and the server are classes; the loops of the
sorts, the index building, the auth checks, the partition and the traversal are loops. Each is proved
against a specification function, and the laws are proved about those functions.

## How it fits together

*The rules.* `RuleFacts` says, for each kind of event and each membership, exactly what the stored
events in force must be for it to be accepted, with the type and membership strings written out.

*State resolution.* `ReverseTopologicalPowerSort` (graph, counts, heap) is proved to produce the
greedy order `IsPowerOrder`, which is unique, topological, and complete exactly on acyclic input. A
list that names an event twice breaks it: the sort is right if and only if no event that waits for
another is named twice, which `resolve` ensures by sorting a set.
`MainlineOrdering` is proved to produce the ascending order by (mainline depth, timestamp, id), which
is unique; the depth is characterised without the walk that computes it. `PowerOrderIff` and
`MainlineOrderIff` restate both orders on the events' own fields, and `JudgedInTwoPasses` says which
events go through which pass and what anchors the second. Both orders are therefore
functions of a *set* of events, so `Resolve` computes `Resolved`, a function of the set of forks and
the set of auth chains: servers converge. `Provenance` then says where every value of the result came
from, and `RoomRuns` says what no run of accepted events can do. `Locality` lets the servers' stores
differ: only the auth-closed neighbourhood of the forks and chains matters.

*Power after resolution.* `ResolvedLevels` applies the run theorems to the resolved state: nobody
rises above a cap that holds in the agreed state. One consequence is that a dispute over the
power-levels slot leaves nobody with a positive level, because the agreed state then has no power
levels and the rules let no event raise anyone above zero. `DisputedLevelsFilledIff` says exactly when
such a slot receives a value at all.

*The resolution cache.* The cache key is the set of disputed ids. Alone it does not determine the
answer (`CacheKeyTooCoarse`, a family of inputs under the server's own rules).
`KeySufficesIffAgreed` gives the exact condition for forks with one set of auth chains: the memoised
answer is right under every rule set if and only if the agreed state is the same. `ResolveAll` proves
that a cache of any capacity is invisible over any run of calls that share it. The server itself
builds a new cache for each call.

*Keys.* The round trip, the prefix-scan law and additive schema evolution are stated as equivalences,
because each fails for some tuples: an optional field that is present but empty or that starts with
the separator byte, raw bytes before the last position, an empty list. `PrefixQueryExact` puts codec
and ordered scan together: a prefix query over stored records decodes to exactly the right records.

*Ring.* Placement is a function of the set of shards, whatever calls led there, if and only if no
two shards share a virtual-node point. Within one shard the 128 points are always distinct, which is
proved from the arithmetic of the hash. An owner is always a current shard, but a room has one whenever
there is a shard if and only if every shard has a point it shares with no other. Under the real hash
neither condition holds for enough shards, by counting.

## Where the code and its documentation differ

The model follows the code.

- `src/api/client/space.rs` calls the traversal depth-first; children join the back of the queue and
  the front is taken, so it is breadth-first (`OrderIsBreadthFirst`).
- `src/stateres/auth.rs` documents membership rules without the creator's first join, knocks and
  restricted joins; the code has all three and so does `MembershipRules`.
- The store's module documentation speaks of nine domains; the enumeration has fifteen.
- `src/stateres/cache.rs` presents equal disputed ids as equal problems; see the cache above.
- `src/core/server.rs` undoes flags when sending the signal fails; `signal` never fails, so those
  branches are dead and are not steps of the model.

## Model

| member | source | states |
|---|---|---|
| `AuthRules.RoomRulesAreAllFour` | src/service/gm_resolve.rs:50-53 | the composed rule set authorises an event exactly when the create, power-level, power-level-mutation and membership rules all do |
| `AuthRules.LevelChanges` | src/stateres/auth.rs:246-278 | the collected vector holds exactly the differing (old, new) pairs over scalars, users and event types, with defaults standing in for missing entries |
| `AuthRules.AppendEntryChanges` | src/stateres/auth.rs:259-275 | one pass over the union of two tables' keys adds exactly the pairs that differ |
| `AuthRules.IterativeAuthChecks` | src/stateres/auth.rs:301-324 | the loop computes the left fold that accepts stored, authorised events and skips the others |
| `AuthRules.FoldProvenance` | src/stateres/auth.rs:301-324 | after any fold a slot holds its last accepted writer, or no event for it was accepted and it is as in the base |
| `RuleFacts.MembershipIff` | src/stateres/auth.rs:193-200 | a membership is that of the stored member event of the user; without one it is "leave" |
| `RuleFacts.JoinRuleIff` | src/stateres/auth.rs:204-212 | the join rule is that of the stored join-rules event; without one it is "invite" |
| `RuleFacts.LevelsInForce` | src/stateres/auth.rs:282-289 | the levels are those of the stored power-levels event; without one every level and requirement is zero |
| `RuleFacts.LevelLookups` | src/stateres/power.rs:38-52 | listed users and event types have their listed level, others the default for users, state events or other events |
| `RuleFacts.SendIff` | src/stateres/auth.rs:54-63 | an event without rules of its own is accepted if and only if the room is created and the sender has the level required for state events of its type |
| `RuleFacts.CreateIff` | src/stateres/auth.rs:68-78 | a create event is accepted if and only if it has no auth events, the empty state key and the level to send it |
| `RuleFacts.JoinIff` | src/stateres/auth.rs:118-149 | a join is accepted if and only if it is one's own, not banned, and first, invited, joined already, into a public room, or vouched for into a restricted one |
| `RuleFacts.InviteIff` | src/stateres/auth.rs:150-153 | an invite is accepted if and only if the sender is joined with the invite level and the target neither joined nor banned |
| `RuleFacts.LeaveIff` | src/stateres/auth.rs:154-161 | one's own leave needs a join, invite or knock; a kick or unban a joined sender with the kick level and strictly more power |
| `RuleFacts.BanIff` | src/stateres/auth.rs:162-165 | a ban is accepted if and only if the sender is joined with the ban level and strictly more power |
| `RuleFacts.KnockIff` | src/stateres/auth.rs:166-172 | a knock is accepted if and only if it is one's own, the join rule is a knocking one and the user neither joined nor banned |
| `RuleFacts.NoOtherMembership` | src/stateres/auth.rs:103-175 | a member event with any other membership, or none, is rejected |
| `RuleFacts.StrangerCannotJoin` | src/stateres/auth.rs:118-212 | a user the state says nothing about cannot join a room without join rules that someone else created |
| `RuleFacts.ActorIsJoined` | src/stateres/auth.rs:150-165 | an accepted invite, kick or ban comes from a user whose stored member event is a join |
| `RuleFacts.PowerLevelsIff` | src/stateres/auth.rs:222-278 | a power-levels event is accepted if and only if it may be sent, carries levels, and every user, event type and threshold it changes was and becomes at most the sender's level |
| `RoomRuns.LevelChangeBounded` | src/stateres/auth.rs:222-241 | an authorised power-levels event either keeps a user's effective level or moves it from at most the sender's level to at most the sender's level, listed user or not |
| `RoomRuns.CanChangeLevelIff` | src/stateres/auth.rs:222-289 | over 64-bit levels, some authorised event of a sender changes a target's level if and only if the room is created, the sender may send power levels, the target is not above the sender and the sender is above the least level |
| `RoomRuns.LevelsStep` | src/stateres/auth.rs:282-324 | one step of a run moves a level only through an accepted event whose sender bounds it before and after |
| `RoomRuns.NoEscalation` | src/stateres/auth.rs:222-324 | a cap on every user's level in the base state holds in every state of every run |
| `RoomRuns.TopUserUntouchable` | src/stateres/auth.rs:103-324 | a user strictly above everyone keeps their exact level and lead, stays joined and is never kicked or banned, over every run in which nothing of theirs is accepted |
| `RoomRuns.BanNeedsUnban` | src/stateres/auth.rs:103-175 | in every run a join, invite or knock of a banned user is preceded by an accepted leave from another joined user with kick power and strictly more level |
| `RoomRuns.BanHolds` | src/stateres/auth.rs:103-175 | without such an unban a ban persists through any stretch of a run |
| `RoomRuns.JoinNeedsInvite` | src/stateres/auth.rs:103-212 | in a room closed to a user throughout, every join of theirs follows an accepted invite by a joined user with invite power |
| `RoomRuns.OutsideHolds` | src/stateres/auth.rs:103-212 | in such a room, without an accepted invite the user stays neither invited nor joined |
| `PowerHeap.ReverseTopologicalPowerSort` | src/stateres/order.rs:92-150 | on any list of ids, the heap algorithm computes the greedy order (at each turn the greatest event by power, earlier timestamp, smaller id among those whose in-set auth events are all out, until none is available) if and only if no event that waits for another is named twice; otherwise some event comes out twice |
| `PowerHeap.SortRepeatedPair` | src/stateres/order.rs:92-150 | sorting any event and one that waits for it, the second named twice, emits the second twice and is not the greedy order |
| `PowerHeap.RepeatsShow` | src/stateres/order.rs:131-147 | on an acyclic graph when an event that waits for another is named twice, some such event is emitted twice and the greedy order is lost |
| `PowerHeap.PopTallies` | src/stateres/order.rs:131-147 | every pop keeps the account: each count and each heap entry is what the emitted events and the number of times an id is named make it |
| `PowerHeap.BoundExists` | src/stateres/order.rs:131-147 | on an acyclic graph the output has a bound, so the loop ends, whatever is repeated |
| `PowerHeap.PopKeepsOrder` | src/stateres/order.rs:131-147 | without repeats every pop takes the next event of the greedy order and leaves the heap holding exactly the available ones |
| `PowerHeap.PresentEvents` | src/stateres/order.rs:96-97 | ids that are not stored are dropped, the others kept as often as they are named |
| `PowerHeap.BuildGraph` | src/stateres/order.rs:99-121 | keys, counts of distinct in-set auth events and the reverse index, with its repeats, agree with the auth graph |
| `PowerHeap.Release` | src/stateres/order.rs:135-146 | every listed dependent is decremented, not below zero, and joins the heap each time it is found at zero |
| `PowerSort.GreaterTotal` | src/stateres/order.rs:62-80 | heap keys are totally ordered, and keys of different ids are never equal in order |
| `PowerSort.PowerOrderIff` | src/stateres/order.rs:69-150 | on the events' own fields: nothing repeats, in-set auth events come first, an event that could have gone earlier has less power, or as much and a later timestamp, or as much and as late and a greater id, and only events with an auth event left out are left out |
| `PowerSort.PowerOrderUnique` | src/stateres/order.rs:92-150 | the greedy order is unique, so the result does not depend on the order of the input |
| `PowerSort.PowerOrderTopological` | src/stateres/order.rs:92-150 | each in-set auth event comes before its dependents and nothing is emitted twice |
| `PowerSort.CompleteIffAcyclic` | src/stateres/order.rs:92-150 | every present event is emitted if and only if the auth graph among them has no cycle |
| `MainlineOrder.LinkIff` | src/stateres/order.rs:217-228 | the link is the auth event at the least index that is stored with type "m.room.power_levels" |
| `MainlineOrder.BuildMainline` | src/stateres/order.rs:172-177 | the loop computes the chain of power-levels links from the resolved event to its root |
| `MainlineOrder.BuildIndex` | src/stateres/order.rs:179-182 | positions count from the root, for exactly the members of the mainline |
| `MainlineOrder.MainlineDepth` | src/stateres/order.rs:200-214 | the walk returns the position of the first chain member on the mainline, or zero |
| `MainlineOrder.DepthIsGreatest` | src/stateres/order.rs:200-214 | the depth is the greatest mainline position anywhere on the event's chain, zero when the chain never meets the mainline |
| `MainlineOrder.ChainFollowsMainline` | src/stateres/order.rs:200-228 | once a chain meets the mainline it stays on it and only moves towards the root |
| `MainlineOrder.ChainDistinct` | src/stateres/order.rs:172-177 | no event repeats on a power-levels chain |
| `MainlineOrder.AcyclicAuthHasAcyclicLinks` | src/stateres/order.rs:217-228 | an acyclic auth graph has acyclic power-levels links, so both loops end |
| `MainlineOrder.MainlineOrdering` | src/stateres/order.rs:165-195 | the result is a permutation of the input, ascending by (mainline depth, timestamp, id) |
| `MainlineOrder.MainlineOrderIff` | src/stateres/order.rs:184-194 | the order is the permutation ascending by depth, then timestamp, then id |
| `MainlineOrder.MainlineOrderUnique` | src/stateres/order.rs:165-195 | there is only one such arrangement of a multiset of events |
| `Forks.Partition` | src/stateres/state_map.rs:42-66 | the agreed and the disputed slots, computed fork by fork, depend only on the set of forks |
| `Forks.AddFork` | src/stateres/state_map.rs:42-53 | a fork contributes its event to each of its slots and leaves the other slots alone |
| `Forks.Unconflicted` | src/stateres/state_map.rs:42-66 | a slot is agreed exactly when one event is its only candidate in the forks, and then holds it |
| `Forks.PartitionCovers` | src/stateres/state_map.rs:42-66 | agreed and disputed slots are disjoint and together are the slots of the forks |
| `Forks.ConflictingEventIds` | src/stateres/state_map.rs:71-76 | exactly the candidates of the disputed slots |
| `Forks.AuthDifference` | src/stateres/order.rs:37-55 | exactly the ids in some auth chain but not in all |
| `Forks.ComputeAuthDifference` | src/stateres/order.rs:37-55 | union minus running intersection computes that set, whatever the order and repetition of the chains |
| `StateCache.ResolvedStateCache.constructor` | src/stateres/cache.rs:26-32 | an empty cache that satisfies the invariant |
| `StateCache.ResolvedStateCache.Get` | src/stateres/cache.rs:36 | the memoised value or nothing |
| `StateCache.ResolvedStateCache.Insert` | src/stateres/cache.rs:41-55 | queue and memo keep listing the same keys within capacity; a known key is refreshed in place, a new one evicts exactly the oldest insertion on overflow, a zero-capacity cache stays empty, other entries keep their values |
| `StateCache.EvictOverflow` | src/stateres/cache.rs:47-54 | the eviction loop keeps exactly the newest keys, with their values |
| `Resolution.OrderControl` | src/stateres/mod.rs:113-121 | the control events of the full set come in the one greedy power order of that set |
| `Resolution.OrderOthers` | src/stateres/mod.rs:113-129 | the other events come in the one mainline order of that set |
| `Resolution.ComputeResolvedSlots` | src/stateres/mod.rs:113-137 | control events in power order, then the others in mainline order, folded over the agreed state and cut down to the disputed slots |
| `Resolution.Resolve` | src/stateres/mod.rs:88-141 | no conflict, hit and miss: the result and the whole cache effect of each, a miss giving `Resolved` of the set of forks and the set of chains |
| `Resolution.Converge` | src/stateres/mod.rs:88-141 | two servers with the same forks and chains, in any order and with any repetition, and caches of any capacities, compute the same state |
| `Resolution.JudgedInTwoPasses` | src/stateres/mod.rs:113-130 | first the stored power-levels, join-rules and member events in power order, then the other stored events in mainline order, anchored on the power-levels event the first pass left in force |
| `Resolution.ControlFirst` | src/stateres/mod.rs:113-130 | no event of another type is judged before a power-levels, join-rules or member event |
| `Resolution.ControlByPower` | src/stateres/mod.rs:120-122 | of two control events that wait for nothing between them the first has more power, or as much and is earlier, or has the smaller id |
| `Resolution.RivalJoinRules` | src/stateres/mod.rs:113-122 | of two rival join rules the one that outranks the other is judged first |
| `Resolution.JudgedEvents` | src/stateres/mod.rs:109-130 | only stored events of the full conflicted set are judged, none twice, and all of them when the auth graph is acyclic |
| `Resolution.Provenance` | src/stateres/mod.rs:88-148 | agreed slots come back unchanged, no new slot appears, and a disputed slot has a value exactly when an event for it was accepted, namely the last one accepted |
| `Resolution.DisputedIdsDetermineSlots` | src/stateres/mod.rs:104-107 | for events in their own slots the cache key determines the disputed slots |
| `Resolution.ResolveMemoised` | src/stateres/mod.rs:104-140 | with a sound memo, hit or miss, the answer is the freshly computed one and the memo stays sound |
| `Resolution.ResolveAll` | src/stateres/mod.rs:88-141 | over any run of calls that share agreed state and auth chains, through one cache of any capacity, every answer is the freshly computed one |
| `Resolution.CacheKeyTooCoarse` | src/stateres/mod.rs:104-107 | a family of forks with the same disputed ids that resolve a disputed room name or leave it out according to the agreed state |
| `Resolution.StaleHit` | src/stateres/mod.rs:88-141 | two calls of `Resolve` through one cache, first with a create event agreed on and then with nothing: the second answer holds a name that a fresh computation leaves out |
| `Resolution.KeySufficesIffAgreed` | src/stateres/mod.rs:104-107 | for forks with the same disputed ids and auth chains, a memoised answer is right under every rule set if and only if the agreed states are equal |
| `ResolvedLevels.ResolvedCapped` | src/stateres/mod.rs:88-148 | a cap on every user's level in the agreed state holds in the resolved state |
| `ResolvedLevels.DisputedLevelsVanish` | src/stateres/mod.rs:120-140 | when the power-levels slot is disputed, every user's resolved level is at most zero |
| `ResolvedLevels.AcceptedOverZero` | src/stateres/auth.rs:222-241 | where no power levels are in force, a power-levels event is authorised if and only if the room is created and the event grants nothing |
| `ResolvedLevels.DisputedLevelsFilledIff` | src/stateres/mod.rs:113-140 | a disputed power-levels slot receives a value if and only if the create event is agreed on and some judged power-levels event grants nothing |
| `Locality.RoomRulesLocal` | src/stateres/auth.rs:54-212 | the room rules judge alike over stores that agree on the ids a state holds |
| `Locality.PowerOrderLocal` | src/stateres/order.rs:92-150 | the power order depends only on the events ordered |
| `Locality.MainlineOrderLocal` | src/stateres/order.rs:165-228 | the mainline order depends only on an auth-closed region around the events and the resolved power levels |
| `Locality.ResolvedLocal` | src/stateres/mod.rs:88-141 | stores that agree on an auth-closed region holding the ids of the forks and chains resolve alike, whatever else they hold |
| `Locality.ConvergeAcrossStores` | src/stateres/mod.rs:88-141 | two servers with such different stores, reordered and repeated inputs and caches of any capacities compute the same state |
| `KeyFormat.BigEndianRoundTrip` | src/database/ser.rs:277-298 | an integer survives its big-endian bytes, for every width that holds it |
| `KeyFormat.BigEndianOrder` | src/database/ser.rs:277-298 | big-endian bytes sort as the integers they encode |
| `KeyFormat.DecodedHaveTypes` | src/database/de.rs:20-31 | whatever the bytes, a decoded tuple has the types asked for |
| `KeyFormat.RoundTripIffLossless` | src/database/de.rs:20-31 | decoding an encoded tuple returns it and consumes every byte if and only if its optional fields are distinguishable and raw bytes are last |
| `KeyFormat.SelfDelimiting` | src/database/ser.rs:105-108 | two separated values of one type that start the same bytes are equal, with equal remainders |
| `KeyFormat.PrefixExact` | src/database/ser.rs:217-229 | a prefix key of delimited fields is a byte prefix of a longer key if and only if the leading fields are equal |
| `KeyFormat.PrefixTypeExactIff` | src/database/ser.rs:217-229 | a prefix field matches exactly its own keys, for all values, if and only if its type is a string or an integer; raw bytes and optional fields give false matches |
| `KeyScans.ScanFindsExactly` | src/database/map/keys_prefix.rs:24-35 | a scan for typed, delimited leading fields finds a key if and only if it is stored and starts with those fields |
| `KeyScans.SerializePrefix` | src/database/map/keys_prefix.rs:31 | the query is written as the prefix key of its fields |
| `KeyScans.KeysPrefix` | src/database/map/keys_prefix.rs:10-35 | serialize, seek, take while the prefix lasts and decode gives the decoded scan |
| `KeyScans.PrefixQueryExact` | src/database/map/keys_prefix.rs:10-35 | over stored records with plain leading fields a prefix query decodes without error to exactly the records with those fields, each once |
| `KeyFormat.AdditiveEvolution` | src/database/de.rs:476-504 | an old key read under a schema with added tail fields gives the old fields and empty tails when all tails tolerate absence, and underflows otherwise |
| `KeyFormat.RewrittenReadsSame` | src/database/de.rs:476-504 | rewriting a key with empty tails reads as the old key does if and only if raw bytes stay last |
| `KeyFormat.ListRoundTripIffNonEmpty` | src/database/de.rs:184-190 | a list of strings reads back if and only if it is not empty; the empty list reads as one empty string |
| `KeyCodec.WrittenFields` | src/database/ser.rs:76-118 | what the serializer writes for a tuple is its encoding, and with a closing interfix its prefix key |
| `KeyCodec.Serializer.TupleStart` | src/database/ser.rs:76-86 | entering a tuple clears the pending separator and deepens by one |
| `KeyCodec.Serializer.TupleEnd` | src/database/ser.rs:88-96 | leaving a tuple restores the depth |
| `KeyCodec.Serializer.RecordStart` | src/database/ser.rs:98-103 | a separator is written before every record but the first |
| `KeyCodec.Serializer.WriteSeparator` | src/database/ser.rs:105-108 | one separator byte is appended |
| `KeyCodec.Serializer.SerializeValue` | src/database/ser.rs:240-298 | integers, strings, raw bytes and optional values append their encoding, nothing for an absent one |
| `KeyCodec.Serializer.SerializeElement` | src/database/ser.rs:332-343 | an element appends the pending separator and its bytes; an interfix finishes the key |
| `KeyCodec.SerializeTuple` | src/database/ser.rs:76-343 | the whole run of the state machine writes the specified bytes |
| `KeyCodec.Deserializer.RecordNext` | src/database/de.rs:98-104 | consumes exactly up to the next separator or the end |
| `KeyCodec.Deserializer.RecordTrail` | src/database/de.rs:144-148 | consumes everything that is left |
| `KeyCodec.Deserializer.RecordStart` | src/database/de.rs:126-139 | steps over the separator between records, with the missing-separator and overrun cases |
| `KeyCodec.Deserializer.DeserializeInteger` | src/database/de.rs:341-384 | eight bytes or an underflow error |
| `KeyCodec.Deserializer.DeserializeValue` | src/database/de.rs:308-419 | each typed read agrees with `DecodeValue` in value, position and error |
| `KeyCodec.Deserializer.NextElement` | src/database/de.rs:476-504 | nothing only when input and declared length are both exhausted, otherwise the next typed value or its error |
| `KeyCodec.Deserializer.DeserializeTuple` | src/database/de.rs:196-202 | one element per declared field, agreeing with `DecodeFields` in values, position and error |
| `KeyCodec.Deserializer.DeserializeList` | src/database/de.rs:184-190 | strings until the input is exhausted |
| `KeyCodec.FromSlice` | src/database/de.rs:20-68 | decoding insists that the buffer is consumed |
| `SpaceHierarchy.ListedIff` | src/service/rooms/spaces/mod.rs:247-260 | a room is listed if and only if a child entry names it, one that is suggested whenever only suggested children are wanted |
| `SpaceHierarchy.ListedInOrder` | src/service/rooms/spaces/mod.rs:247-260 | rooms are listed in the order of the entries |
| `SpaceHierarchy.EnqueueInOrder` | src/api/client/space.rs:165-178 | children are queued in the order listed |
| `SpaceHierarchy.OrderIsExact` | src/api/client/space.rs:121-180 | the traversal emits each room once, and exactly the accessible rooms reachable through accessible rooms in at most `max_depth` hops |
| `SpaceHierarchy.OrderIsBreadthFirst` | src/api/client/space.rs:140-180 | rooms come out by distance from the root |
| `SpaceHierarchy.WalkCompletes` | src/api/client/space.rs:140-180 | from any reachable queue and visited set the walk ends with every room settled and emits the new ones once, outwards |
| `SpacePages.ShortIds.GetOrCreate` | src/service/rooms/short/mod.rs:238-281 | a known room keeps its id, a new one gets an unused id, no other id changes |
| `SpacePages.AllocateAll` | src/api/client/space.rs:208-225 | the ids of a page in page order, all allocated afterwards |
| `SpacePages.CollectRooms` | src/api/client/space.rs:140-203 | the traversal cut off when the page is full gives the first `limit` rooms the full traversal would show |
| `SpacePages.GetClientHierarchy` | src/api/client/space.rs:84-244 | the fault of looking up the root passed on, the forbidden root, the page, and the token present exactly when the page is full |
| `SpacePages.TokenResumes` | src/api/client/space.rs:208-241 | a full page's token lists exactly what has been shown; a page without a token is the last |
| `SpacePages.ShownIff` | src/service/rooms/spaces/mod.rs:273-277 | a room is shown if and only if it is within reach and its join rule is not a custom one |
| `SpacePages.VisibleWithout` | src/api/client/space.rs:181-203 | skipping what was shown first leaves exactly what was to be shown next |
| `SpacePages.NextPage` | src/api/client/space.rs:84-244 | a request resumed from a token shows the next `limit` rooms, or the rest |
| `SpacePages.FollowFrom` | src/api/client/space.rs:84-244 | from any resumption point the pages divide what is left |
| `SpacePages.FollowTokens` | src/api/client/space.rs:84-244 | following tokens over an unchanged hierarchy shows every serializable room the traversal reaches once and in order, in full pages but for the last |
| `RingHash.ComputeHash` | src/shard/ring.rs:119-127 | the FNV-1a loop and finalizer compute `Hash`, with 64-bit wrap-around |
| `RingHash.FinalizeDistinct` | src/shard/ring.rs:130-134 | the finalizer is injective on 64-bit words |
| `RingHash.FnvStepDistinct` | src/shard/ring.rs:119-127 | from one state, different bytes give different states |
| `RingHash.VirtualNodesDistinct` | src/shard/ring.rs:108-113 | the virtual nodes of one shard have distinct hashes, for every shard name |
| `RingHash.OffsetTimesPrime` | src/shard/ring.rs:25-27 | the offset basis and prime give the known FNV-1a value of a zero byte |
| `RingPlacement.OwnerIsNearest` | src/shard/ring.rs:64-71 | a point is owned by the shard of the node at the least clockwise distance modulo 2^64 |
| `ShardRing.RoomsOnNearestNode` | src/shard/ring.rs:64-71 | on the server's own ring, after any calls, a room is on the shard of the node nearest to its hash clockwise |
| `RingPlacement.AddMovesOnlyOnto` | src/shard/ring.rs:44-51 | adding a shard to any ring moves a point only onto it |
| `RingPlacement.RemoveMovesOnlyFrom` | src/shard/ring.rs:55-60 | draining a shard moves only the points it owned and leaves it none |
| `RingPlacement.DeterminedIffNoCollisions` | src/shard/ring.rs:44-71 | rings reached by any calls with equal shard sets are equal if and only if nodes of different shards never collide |
| `RingPlacement.AddThenRemoveRestores` | src/shard/ring.rs:44-60 | without collisions, adding and draining a shard restores the ring |
| `RingPlacement.PlacedOnMember` | src/shard/ring.rs:64-71 | after any calls an owner is a current shard, collisions or not |
| `RingPlacement.AlwaysPlacedIff` | src/shard/ring.rs:44-71 | after all calls rooms have an owner exactly when there is a shard, if and only if every shard has a virtual node it shares with no other |
| `RingPlacement.CanBeEmptied` | src/shard/ring.rs:44-60 | a shard without a node of its own can be left as the only shard of an empty ring |
| `RingPlacement.NoCollisionsOwnNodes` | src/shard/ring.rs:44-51 | without collisions every shard has a node of its own |
| `RingPlacement.MovesAreTheChanges` | src/shard/ring.rs:83-96 | exactly the rooms whose owner changes are listed, with both owners |
| `RingPlacement.ReassignmentsTouchOnly` | src/shard/ring.rs:83-96 | reassignments for an added shard all lead to it, those for a drained shard all come from it |
| `ShardRing.ShardHasAllItsNodes` | src/shard/ring.rs:44-51 | the 128 virtual nodes of any shard occupy 128 ring points |
| `ShardRing.CallOrderMatters` | src/shard/ring.rs:108-134 | under the real hash, rings over more than 2^64 names are not determined by their shards |
| `ShardRing.PlacementCanFail` | src/shard/ring.rs:108-134 | under the real hash, over as many names some run leaves a shard on the ring and no room placed |
| `ShardRing.Ring.constructor` | src/shard/ring.rs:41 | an empty ring |
| `ShardRing.Ring.AddShard` | src/shard/ring.rs:44-51 | the insertion loop yields the specified ring, a no-op for a present shard |
| `ShardRing.Ring.RemoveShard` | src/shard/ring.rs:55-60 | exactly the entries owned by the shard go |
| `ShardRing.Ring.ShardFor` | src/shard/ring.rs:64-71 | the owner of the first node at or after the room's hash, wrapping to the first |
| `ShardRing.Ring.Reassign` | src/shard/ring.rs:86-94 | one room moves exactly when both rings place it and on different shards |
| `ShardRing.Ring.Reassignments` | src/shard/ring.rs:83-96 | the pass over the rooms through `ShardFor` on both rings lists exactly the given rooms that both place, on different shards, with their two owners and in the order given |
| `FederationSender.Conservation` | src/fed/sender.rs:35-87 | over any run, what was taken followed by what is pending is what was queued: nothing lost, repeated or reordered |
| `FederationSender.Isolation` | src/fed/sender.rs:35-101 | an operation on one destination leaves queue, gate and attempts of every other alone |
| `FederationSender.NonInterference` | src/fed/sender.rs:35-101 | a destination's queue and backoff after any run are those of the run restricted to it |
| `FederationSender.DelayIsSchedule` | src/fed/sender.rs:123-129 | the delay is 1000 ms, doubled for each further failure up to 60000 ms; neither the capped shift nor the saturating counter shows |
| `FederationSender.BackoffHistory` | src/fed/sender.rs:90-106 | after any run the attempt count and gate are those of the failures since the last success and the time of the last one |
| `FederationSender.ReadyExactly` | src/fed/sender.rs:71-78 | after any run a destination is ready if and only if something is pending and it has not failed since its last success or its backoff has elapsed |
| `FederationSender.Sender.constructor` | src/fed/sender.rs:32 | nothing queued, nothing backed off |
| `FederationSender.Sender.QueueItem` | src/fed/sender.rs:35-37 | appends to that destination's queue |
| `FederationSender.Sender.TakeAll` | src/fed/sender.rs:82-87 | returns the whole queue and empties it |
| `FederationSender.Sender.MarkSuccess` | src/fed/sender.rs:90-92 | forgets that destination's backoff |
| `FederationSender.Sender.MarkFailure` | src/fed/sender.rs:97-101 | counts up, saturating, and sets the gate |
| `FederationSender.Sender.Restore` | src/fed/sender.rs:117-119 | reinstates a persisted backoff |
| `FederationSender.Sender.Ready` | src/fed/sender.rs:71-78 | lists exactly the ready destinations, ascending |
| `MemStore.LookupIsLastEffect` | src/store/mem.rs:60-76 | a lookup after a batch is the effect of its last operation on the key, or what was there |
| `MemStore.GetAfterCommits` | src/store/backend.rs:96-115 | after any sequence of batches a read is the effect of the last operation on that domain and key |
| `MemStore.CommitsFlatten` | src/store/mem.rs:60-76 | committing batches one by one is committing their concatenation |
| `MemStore.ScanIsFilter` | src/store/mem.rs:45-58 | seeking to the prefix and stopping at the first mismatch equals filtering the whole domain |
| `MemStore.ScanMembers` | src/store/backend.rs:103-113 | the scanned keys are exactly those with the prefix, ascending |
| `ByteOrder.LessIff` | src/store/mem.rs:45-58 | keys are ordered at their first difference: the smaller byte, or the end, comes first |
| `ByteOrder.PrefixContiguous` | src/store/mem.rs:45-58 | between two keys with a prefix, in byte order, every key has it |
| `MemStore.WriteBatch.constructor` | src/store/backend.rs:45 | an empty batch |
| `MemStore.WriteBatch.QueuePut` | src/store/backend.rs:48-56 | appends a put |
| `MemStore.WriteBatch.QueueDelete` | src/store/backend.rs:59-66 | appends a delete |
| `MemStore.VisitKeys` | src/store/mem.rs:45-58 | the visiting loop computes seek-then-take-while |
| `MemStore.MemBackend.constructor` | src/store/mem.rs:30 | every domain empty |
| `MemStore.MemBackend.Get` | src/store/mem.rs:40-43 | the value of the key in that domain, if any |
| `MemStore.MemBackend.PrefixScan` | src/store/mem.rs:45-58 | exactly the entries of the domain whose key has the prefix, strictly ascending |
| `MemStore.MemBackend.Commit` | src/store/mem.rs:60-76 | all operations of the batch in order |
| `ServerFlags.NextKeeps` | src/core/server.rs:91-109 | every atomic step of every call keeps: each flag is set exactly when one call holds it, and refusals have a reason |
| `ServerFlags.AtMostOneSucceeds` | src/core/server.rs:91-109 | however restart and shutdown calls interleave, at most one ever succeeds |
| `ServerFlags.QuiescentFlags` | src/core/server.rs:91-109 | when no call is in progress, `restarting` is set exactly when the successful call was a restart, `stopping` exactly when there is one, and any call at all implies one |
| `ServerFlags.Server.constructor` | src/core/server.rs:52-70 | both flags clear |
| `ServerFlags.Server.RequestShutdown` | src/core/server.rs:101-109 | an uninterrupted shutdown has the effect and answer of its steps in the state machine |
| `ServerFlags.Server.RequestRestart` | src/core/server.rs:91-99 | an uninterrupted restart has the effect and answer of its steps in the state machine, flag undone when refused |

## Left out

- PowerHeap.ReverseTopologicalPowerSort: excludes a cyclic auth graph together with such a repeat, because there the source's loop need not end; the heap is a multiset from which a greatest key is taken, not its array layout.
- MainlineOrder.MainlineOrdering: requires acyclic power-levels links, because on a cycle the source's loop does not end; the standard library sort is an insertion sort on the same total order.
- Resolution.KeySufficesIffAgreed: compares calls with one set of auth chains and one store; when the auth differences also differ no equivalence is given.
- SpacePages.FollowTokens: the hierarchy does not change between pages; other requests do not allocate short ids in between; a limit of zero, which yields one empty page, is covered by `GetClientHierarchy` only.
- FederationSender.Conservation: runs do not contain `restore`, which is modelled as a method but touches no queue.
- KeyCodec.FromSlice: models the debug build, where a failed assertion on a separator is an error result.
- ShardRing.CallOrderMatters: the collision exists by counting; no pair of colliding names is written out.
- Power levels, powers and timestamps are unbounded integers elsewhere; they are only compared, never computed with.
- Strings in keys are byte sequences without the separator byte; UTF-8 validity is not modelled.
- JSON, CBOR and raw-value payloads, nested sequences, integer arrays, ignored fields and integers other than 64-bit ones in the key format.
- The text form of the pagination token, its comparison with the request parameters, the clamping of limits, `via` servers, and service failures below the root, which appear as rooms without a summary.
- The database maps' prefix query is modelled on an ordered map; errors of the underlying stream and the reverse iterators are not.
- RocksDB, locks, poisoning and concurrent commits; a commit is one step.
- Fetching events and auth chains, the adapters around `resolve`, and signature or hash checks.
- How evenly the ring spreads rooms over shards.
- The sender's reporting functions `queue_depths`, `backoff_state` and `backoff_for`.
- Hot reload, which shares the `stopping` flag, and the memory orderings of the atomic operations; steps interleave sequentially.
- The HTTP, admin, OIDC, media, push, presence and agent modules, which would add members without harder properties.
