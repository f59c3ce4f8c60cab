/** Reverse topological power ordering: the heap-driven sort of the control events and the greedy
    order it computes. */
module PowerSort {
  import opened ByteOrder
  import opened RoomEvents

  datatype PowerKey = PowerKey(power: int, ts: nat, id: EventId)

  /** The heap order: higher power, then earlier timestamp, then smaller id is greater. */
  predicate Greater(a: PowerKey, b: PowerKey) {
    || a.power > b.power
    || (a.power == b.power && a.ts < b.ts)
    || (a.power == b.power && a.ts == b.ts && Less(a.id, b.id))
  }

  lemma GreaterTotal(a: PowerKey, b: PowerKey)
    ensures a == b || Greater(a, b) || Greater(b, a)
    ensures !(Greater(a, b) && Greater(b, a))
  {
    LessTotal(a.id, b.id);
  }

  lemma GreaterTransitive(a: PowerKey, b: PowerKey, c: PowerKey)
    requires Greater(a, b) && Greater(b, c)
    ensures Greater(a, c)
  {
    if Less(a.id, b.id) && Less(b.id, c.id) {
      LessTransitive(a.id, b.id, c.id);
    }
  }

  function KeyOf(id: EventId, store: EventStore): PowerKey
    requires id in store
  {
    PowerKey(store[id].power, store[id].ts, id)
  }

  /** The auth events of `id` that lie in `among`. */
  function Deps(id: EventId, among: set<EventId>, store: EventStore): set<EventId>
    requires id in store
  {
    set a | a in store[id].auth && a in among
  }

  // ---------------------------------------------------------------- the greedy order

  /** The events of `todo` none of whose auth events is still in `todo`. */
  function Available(todo: set<EventId>, store: EventStore): set<EventId>
    requires todo <= store.Keys
  {
    set id | id in todo && Deps(id, todo, store) == {}
  }

  ghost predicate IsNext(id: EventId, todo: set<EventId>, store: EventStore)
    requires todo <= store.Keys
  {
    && id in Available(todo, store)
    && forall other | other in Available(todo, store) ::
         other == id || Greater(KeyOf(id, store), KeyOf(other, store))
  }

  ghost function Todo(out: seq<EventId>, present: set<EventId>): set<EventId> {
    set id | id in present && id !in out
  }

  /** Every element is the greatest available one at its turn. */
  ghost predicate Greedy(out: seq<EventId>, present: set<EventId>, store: EventStore)
    requires present <= store.Keys
  {
    forall k | 0 <= k < |out| :: IsNext(out[k], Todo(out[..k], present), store)
  }

  /** `out` is the order obtained by repeatedly emitting the greatest available event until none is
      available. */
  ghost predicate IsPowerOrder(out: seq<EventId>, present: set<EventId>, store: EventStore)
    requires present <= store.Keys
  {
    Greedy(out, present, store) && Available(Todo(out, present), store) == {}
  }

  lemma NextUnique(a: EventId, b: EventId, todo: set<EventId>, store: EventStore)
    requires todo <= store.Keys
    requires IsNext(a, todo, store) && IsNext(b, todo, store)
    ensures a == b
  {
    GreaterTotal(KeyOf(a, store), KeyOf(b, store));
  }

  lemma {:induction false} CommonPrefix(a: seq<EventId>, b: seq<EventId>, n: nat, present: set<EventId>, store: EventStore)
    requires present <= store.Keys
    requires n <= |a| && n <= |b|
    requires Greedy(a, present, store) && Greedy(b, present, store)
    ensures a[..n] == b[..n]
  {
    if n > 0 {
      CommonPrefix(a, b, n - 1, present, store);
      var todo := Todo(a[..n - 1], present);
      assert IsNext(a[n - 1], todo, store) && IsNext(b[n - 1], todo, store);
      NextUnique(a[n - 1], b[n - 1], todo, store);
      assert a[..n] == a[..n - 1] + [a[n - 1]] && b[..n] == b[..n - 1] + [b[n - 1]];
    }
  }

  /** Of two greedy sequences the longer continues the shorter, which was then not finished. */
  lemma GreedyExtends(a: seq<EventId>, b: seq<EventId>, present: set<EventId>, store: EventStore)
    requires present <= store.Keys
    requires Greedy(a, present, store) && Greedy(b, present, store)
    requires |a| <= |b|
    ensures a == b[..|a|]
    ensures |a| < |b| ==> Available(Todo(a, present), store) != {}
  {
    CommonPrefix(a, b, |a|, present, store);
    assert a[..|a|] == a;
    if |a| < |b| {
      assert IsNext(b[|a|], Todo(b[..|a|], present), store);
    }
  }

  /** The greedy order is unique, so it cannot depend on the order of the input. */
  lemma PowerOrderUnique(a: seq<EventId>, b: seq<EventId>, present: set<EventId>, store: EventStore)
    requires present <= store.Keys
    requires IsPowerOrder(a, present, store) && IsPowerOrder(b, present, store)
    ensures a == b
  {
    if |a| <= |b| {
      GreedyExtends(a, b, present, store);
    } else {
      GreedyExtends(b, a, present, store);
    }
  }

  ghost predicate IsGreatest(key: PowerKey, ready: multiset<PowerKey>) {
    key in ready && forall other | other in ready :: other == key || Greater(key, other)
  }

  lemma {:induction false} GreatestExists(ready: multiset<PowerKey>)
    requires ready != multiset{}
    ensures exists key :: IsGreatest(key, ready)
    decreases |ready|
  {
    var a :| a in ready;
    var rest := ready - multiset{a};
    assert ready == rest + multiset{a};
    if rest == multiset{} {
      assert IsGreatest(a, ready);
    } else {
      GreatestExists(rest);
      var b :| IsGreatest(b, rest);
      GreaterTotal(a, b);
      if Greater(a, b) {
        forall other | other in ready ensures other == a || Greater(a, other) {
          if other != a && other != b {
            assert other in rest;
            GreaterTransitive(a, b, other);
          }
        }
        assert IsGreatest(a, ready);
      } else {
        assert IsGreatest(b, ready);
      }
    }
  }

  lemma GreedySnoc(ordered: seq<EventId>, id: EventId, present: set<EventId>, store: EventStore)
    requires present <= store.Keys
    requires Greedy(ordered, present, store)
    requires IsNext(id, Todo(ordered, present), store)
    ensures Greedy(ordered + [id], present, store)
    ensures Todo(ordered + [id], present) == Todo(ordered, present) - {id}
  {
    var out := ordered + [id];
    forall k | 0 <= k < |out| ensures IsNext(out[k], Todo(out[..k], present), store) {
      if k < |ordered| {
        assert out[..k] == ordered[..k];
      } else {
        assert out[..k] == ordered;
      }
    }
  }

  lemma NextExists(todo: set<EventId>, store: EventStore) returns (id: EventId)
    requires todo <= store.Keys
    requires Available(todo, store) != {}
    ensures IsNext(id, todo, store)
  {
    var avail := Available(todo, store);
    var heap := multiset(set a | a in avail :: KeyOf(a, store));
    var a :| a in avail;
    assert KeyOf(a, store) in heap;
    GreatestExists(heap);
    var key :| IsGreatest(key, heap);
    id := key.id;
    forall other | other in avail ensures other == id || Greater(KeyOf(id, store), KeyOf(other, store)) {
      assert KeyOf(other, store) in heap;
    }
  }

  lemma {:induction false} CompletePrefix(prefix: seq<EventId>, present: set<EventId>, store: EventStore)
    requires present <= store.Keys
    requires Greedy(prefix, present, store)
    ensures exists out :: IsPowerOrder(out, present, store)
    decreases Todo(prefix, present)
  {
    if Available(Todo(prefix, present), store) == {} {
      assert IsPowerOrder(prefix, present, store);
    } else {
      var id := NextExists(Todo(prefix, present), store);
      GreedySnoc(prefix, id, present, store);
      CompletePrefix(prefix + [id], present, store);
    }
  }

  /** The greedy order of a set of stored events. */
  ghost function PowerOrder(present: set<EventId>, store: EventStore): (out: seq<EventId>)
    requires present <= store.Keys
    ensures IsPowerOrder(out, present, store)
  {
    CompletePrefix([], present, store);
    var out :| IsPowerOrder(out, present, store);
    out
  }

  /** Each in-set auth event comes before its dependents, and nothing is emitted twice. */
  lemma PowerOrderTopological(out: seq<EventId>, k: nat, present: set<EventId>, store: EventStore)
    requires present <= store.Keys
    requires Greedy(out, present, store)
    requires k < |out|
    ensures out[k] in present && out[k] !in out[..k]
    ensures forall a | a in store[out[k]].auth && a in present :: a in out[..k]
  {
    var todo := Todo(out[..k], present);
    assert IsNext(out[k], todo, store);
    forall a | a in store[out[k]].auth && a in present ensures a in out[..k] {
      assert a !in Deps(out[k], todo, store);
    }
  }

  // ---------------------------------------------------------------- the order on the events' fields

  /** More power, or as much and earlier, or as much and as early and a smaller id. */
  ghost predicate Outranks(x: EventId, y: EventId, store: EventStore)
    requires x in store && y in store
  {
    var a, b := store[x], store[y];
    || a.power > b.power
    || (a.power == b.power && a.ts < b.ts)
    || (a.power == b.power && a.ts == b.ts && Less(x, y))
  }

  /** Every auth event of `id` that is to be ordered is among `placed`. */
  ghost predicate AuthPlaced(id: EventId, placed: seq<EventId>, present: set<EventId>, store: EventStore)
    requires id in store
  {
    forall a | a in store[id].auth && a in present :: a in placed
  }

  lemma AvailableIff(id: EventId, placed: seq<EventId>, present: set<EventId>, store: EventStore)
    requires id in present && present <= store.Keys
    ensures id in Available(Todo(placed, present), store) <==> id !in placed && AuthPlaced(id, placed, present, store)
  {
    var todo := Todo(placed, present);
    if id in Available(todo, store) {
      forall a | a in store[id].auth && a in present ensures a in placed {
        assert a !in Deps(id, todo, store);
      }
    }
  }

  /** Nothing repeats, auth events come first, and whoever could have gone earlier is outranked by
      whoever did. */
  ghost predicate RankedRun(out: seq<EventId>, present: set<EventId>, store: EventStore)
    requires present <= store.Keys
  {
    && (forall k | 0 <= k < |out| :: out[k] in present && out[k] !in out[..k] && AuthPlaced(out[k], out[..k], present, store))
    && (forall i, j | 0 <= i < j < |out| && AuthPlaced(out[j], out[..i], present, store) :: Outranks(out[i], out[j], store))
  }

  lemma GreedyIsRanked(out: seq<EventId>, present: set<EventId>, store: EventStore)
    requires present <= store.Keys && Greedy(out, present, store)
    ensures RankedRun(out, present, store)
  {
    forall k | 0 <= k < |out|
      ensures out[k] in present && out[k] !in out[..k] && AuthPlaced(out[k], out[..k], present, store)
    {
      PowerOrderTopological(out, k, present, store);
    }
    forall i, j | 0 <= i < j < |out| && AuthPlaced(out[j], out[..i], present, store) ensures Outranks(out[i], out[j], store) {
      PowerOrderTopological(out, j, present, store);
      assert out[i] == out[..j][i];
      assert forall k | 0 <= k < i :: out[..i][k] == out[..j][k];
      AvailableIff(out[j], out[..i], present, store);
      assert IsNext(out[i], Todo(out[..i], present), store);
    }
  }

  lemma InPrefix(out: seq<EventId>, k: nat, j: int)
    requires 0 <= j < k <= |out|
    ensures out[j] in out[..k]
  {
    assert out[..k][j] == out[j];
  }

  /** An event that could go now is there later, and outranked. */
  lemma RankedBeats(out: seq<EventId>, k: nat, other: EventId, present: set<EventId>, store: EventStore)
    requires present <= store.Keys && RankedRun(out, present, store) && k < |out|
    requires other in out && other !in out[..k] && AuthPlaced(other, out[..k], present, store)
    ensures other == out[k] || Outranks(out[k], other, store)
  {
    var j :| 0 <= j < |out| && out[j] == other;
    if j < k {
      InPrefix(out, k, j);
    }
  }

  lemma RankedIsGreedy(out: seq<EventId>, k: nat, present: set<EventId>, store: EventStore)
    requires present <= store.Keys && RankedRun(out, present, store) && k < |out|
    requires forall id | id in present && AuthPlaced(id, out, present, store) :: id in out
    ensures IsNext(out[k], Todo(out[..k], present), store)
  {
    AvailableIff(out[k], out[..k], present, store);
    forall other | other in Available(Todo(out[..k], present), store)
      ensures other == out[k] || Greater(KeyOf(out[k], store), KeyOf(other, store))
    {
      AvailableIff(other, out[..k], present, store);
      PlacedLater(other, out, k, present, store);
      RankedBeats(out, k, other, present, store);
    }
  }

  lemma PlacedLater(id: EventId, out: seq<EventId>, k: nat, present: set<EventId>, store: EventStore)
    requires id in store && k <= |out| && AuthPlaced(id, out[..k], present, store)
    ensures AuthPlaced(id, out, present, store)
  {
    assert forall a | a in out[..k] :: a in out;
  }

  /** The power order, on the events' own fields: a ranked run that leaves out only events with an
      auth event left out. */
  lemma PowerOrderIff(out: seq<EventId>, present: set<EventId>, store: EventStore)
    requires present <= store.Keys
    ensures IsPowerOrder(out, present, store) <==>
            && RankedRun(out, present, store)
            && forall id | id in present && AuthPlaced(id, out, present, store) :: id in out
  {
    forall id | id in present
      ensures id in Available(Todo(out, present), store) <==> id !in out && AuthPlaced(id, out, present, store)
    {
      AvailableIff(id, out, present, store);
    }
    if IsPowerOrder(out, present, store) {
      GreedyIsRanked(out, present, store);
    }
    if RankedRun(out, present, store) && forall id | id in present && AuthPlaced(id, out, present, store) :: id in out {
      forall k | 0 <= k < |out| ensures IsNext(out[k], Todo(out[..k], present), store) {
        RankedIsGreedy(out, k, present, store);
      }
      assert Available(Todo(out, present), store) == {};
    }
  }

  // ---------------------------------------------------------------- completeness

  ghost predicate RankedBy(rank: map<EventId, nat>, present: set<EventId>, store: EventStore)
    requires present <= store.Keys
  {
    && present <= rank.Keys
    && forall id, a | id in present && a in Deps(id, present, store) :: rank[a] < rank[id]
  }

  /** The auth graph restricted to `present` has no cycle. */
  ghost predicate AcyclicWithin(present: set<EventId>, store: EventStore)
    requires present <= store.Keys
  {
    exists rank :: RankedBy(rank, present, store)
  }

  lemma {:induction false} LowestRank(todo: set<EventId>, rank: map<EventId, nat>) returns (id: EventId)
    requires todo != {} && todo <= rank.Keys
    ensures id in todo && forall other | other in todo :: rank[id] <= rank[other]
  {
    id :| id in todo;
    if todo != {id} {
      var low := LowestRank(todo - {id}, rank);
      if rank[low] < rank[id] {
        id := low;
      }
    }
  }

  /** In an acyclic graph some event of any non-empty remainder is available. */
  lemma SomethingAvailable(todo: set<EventId>, present: set<EventId>, store: EventStore)
    requires todo <= present <= store.Keys
    requires todo != {} && AcyclicWithin(present, store)
    ensures Available(todo, store) != {}
  {
    var rank :| RankedBy(rank, present, store);
    var low := LowestRank(todo, rank);
    assert forall a | a in todo && a in store[low].auth :: a in Deps(low, present, store);
    assert low in Available(todo, store);
  }

  ghost function PositionRank(out: seq<EventId>): (rank: map<EventId, nat>)
    ensures forall id :: id in rank <==> id in out
    ensures forall id | id in rank :: rank[id] < |out| && out[rank[id]] == id
  {
    map id | id in out :: var k: nat :| k < |out| && out[k] == id; k
  }

  lemma CompleteIsRanked(out: seq<EventId>, present: set<EventId>, store: EventStore)
    requires present <= store.Keys
    requires Greedy(out, present, store)
    requires forall id | id in present :: id in out
    ensures AcyclicWithin(present, store)
  {
    var rank := PositionRank(out);
    forall id, a | id in present && a in Deps(id, present, store) ensures rank[a] < rank[id] {
      PowerOrderTopological(out, rank[id], present, store);
      var k :| 0 <= k < rank[id] && out[..rank[id]][k] == a;
      PowerOrderTopological(out, rank[a], present, store);
      assert forall j | 0 <= j < rank[a] :: out[..rank[a]][j] == out[j];
    }
    assert RankedBy(rank, present, store);
  }

  /** Every present event is emitted exactly when the auth graph among them is acyclic. */
  lemma CompleteIffAcyclic(out: seq<EventId>, present: set<EventId>, store: EventStore)
    requires present <= store.Keys
    requires IsPowerOrder(out, present, store)
    ensures (forall id | id in present :: id in out) <==> AcyclicWithin(present, store)
  {
    var todo := Todo(out, present);
    if todo != {} {
      if AcyclicWithin(present, store) {
        SomethingAvailable(todo, present, store);
      }
    } else {
      assert forall id | id in present :: id !in todo;
      CompleteIsRanked(out, present, store);
    }
  }
}
