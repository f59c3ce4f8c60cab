/** The bounded memo of resolved slots, evicted in order of insertion. */
module StateCache {
  import opened Basics
  import opened RoomEvents

  /** A resolution is memoised under the set of disputed event ids that produced it. */
  type CacheKey = set<EventId>

  function Newest(order: seq<CacheKey>, capacity: nat): seq<CacheKey> {
    if |order| <= capacity then order else order[|order| - capacity..]
  }

  class ResolvedStateCache {
    var entries: map<CacheKey, StateMap>
    var order: seq<CacheKey>
    const capacity: nat

    /** The eviction queue lists the memoised keys once each, oldest first, within capacity. */
    ghost predicate Valid()
      reads this
    {
      && Distinct(order)
      && entries.Keys == Elements(order)
      && |order| <= capacity
    }

    constructor (capacity: nat)
      ensures Valid() && entries == map[] && this.capacity == capacity
    {
      this.entries, this.order, this.capacity := map[], [], capacity;
    }

    method Get(key: CacheKey) returns (resolved: Option<StateMap>)
      ensures resolved == if key in entries then Some(entries[key]) else None
    {
      resolved := if key in entries then Some(entries[key]) else None;
    }

    /** A known key is refreshed in place; a new one joins the back of the queue and, when that
        overfills the cache, exactly the oldest insertion goes. */
    method Insert(key: CacheKey, resolved: StateMap)
      requires Valid()
      modifies `entries, `order
      ensures Valid()
      ensures capacity == 0 ==> entries == old(entries) && order == old(order)
      ensures capacity > 0 && key in old(entries) ==>
                entries == old(entries)[key := resolved] && order == old(order)
      ensures capacity > 0 && key !in old(entries) ==> order == Newest(old(order) + [key], capacity)
      ensures capacity > 0 ==> key in entries && entries[key] == resolved
      ensures forall k | k in entries && k != key :: k in old(entries) && entries[k] == old(entries)[k]
    {
      if capacity == 0 {
        return;
      }
      if key in entries {
        entries := entries[key := resolved];
        return;
      }
      PushElements(order, key);
      order, entries := EvictOverflow(order + [key], entries[key := resolved], capacity);
    }
  }

  ghost predicate Coherent(order: seq<CacheKey>, entries: map<CacheKey, StateMap>) {
    Distinct(order) && entries.Keys == Elements(order)
  }

  method EvictOverflow(queue: seq<CacheKey>, memo: map<CacheKey, StateMap>, capacity: nat)
    returns (order: seq<CacheKey>, entries: map<CacheKey, StateMap>)
    requires Coherent(queue, memo)
    ensures order == Newest(queue, capacity)
    ensures Coherent(order, entries)
    ensures forall k | k in entries :: k in memo && entries[k] == memo[k]
  {
    order, entries := queue, memo;
    while |order| > capacity
      invariant |order| <= |queue| && order == queue[|queue| - |order|..]
      invariant |order| == |queue| || |order| >= capacity
      invariant Coherent(order, entries)
      invariant forall k | k in entries :: k in memo && entries[k] == memo[k]
    {
      PopElements(order);
      var evicted := order[0];
      order := order[1..];
      entries := entries - {evicted};
    }
  }

  lemma PushElements(order: seq<CacheKey>, key: CacheKey)
    requires Distinct(order) && key !in Elements(order)
    ensures Distinct(order + [key]) && Elements(order + [key]) == Elements(order) + {key}
  {
  }

  lemma PopElements(order: seq<CacheKey>)
    requires Distinct(order) && order != []
    ensures Distinct(order[1..]) && Elements(order[1..]) == Elements(order) - {order[0]}
  {
    assert order == [order[0]] + order[1..];
  }
}
