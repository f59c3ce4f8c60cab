/** The heap-driven sort of the control events, on any list of ids. */
module PowerHeap {
  import opened Basics
  import opened RoomEvents
  import opened PowerSort

  // ---------------------------------------------------------------- counting

  /** How many positions of `s` hold a member of `among`. */
  ghost function CountIn(s: seq<EventId>, among: set<EventId>): nat {
    if s == [] then 0
    else CountIn(s[..|s| - 1], among) + if s[|s| - 1] in among then 1 else 0
  }

  lemma CountInNext(s: seq<EventId>, id: EventId, among: set<EventId>)
    ensures CountIn(s + [id], among) == CountIn(s, among) + if id in among then 1 else 0
  {
    assert (s + [id])[..|s|] == s;
  }

  lemma {:induction false} CountInSplit(s: seq<EventId>, among: set<EventId>, x: EventId)
    requires x in among
    ensures CountIn(s, among) == CountIn(s, among - {x}) + multiset(s)[x]
  {
    if s != [] {
      var n := |s| - 1;
      CountInSplit(s[..n], among, x);
      assert s == s[..n] + [s[n]];
    }
  }

  lemma {:induction false} CountInNone(s: seq<EventId>)
    ensures CountIn(s, {}) == 0
  {
    if s != [] {
      CountInNone(s[..|s| - 1]);
    }
  }

  lemma {:induction false} CountInAll(s: seq<EventId>, among: set<EventId>)
    requires forall x | x in s :: x in among
    ensures CountIn(s, among) == |s|
  {
    if s != [] {
      CountInAll(s[..|s| - 1], among);
    }
  }

  lemma {:induction false} CountInAtMost(s: seq<EventId>, among: set<EventId>, cap: nat)
    requires forall x | x in among :: multiset(s)[x] <= cap
    ensures CountIn(s, among) <= |among| * cap
  {
    if among == {} {
      CountInNone(s);
    } else {
      var x :| x in among;
      CountInAtMost(s, among - {x}, cap);
      CountInSplit(s, among, x);
      assert |among| == |among - {x}| + 1;
      assert |among| * cap == |among - {x}| * cap + cap;
    }
  }

  lemma {:induction false} CountInAtLeast(s: seq<EventId>, among: set<EventId>)
    requires forall x | x in among :: x in s
    ensures CountIn(s, among) >= |among|
  {
    if among != {} {
      var x :| x in among;
      CountInAtLeast(s, among - {x});
      CountInSplit(s, among, x);
      assert x in multiset(s);
      assert |among| == |among - {x}| + 1;
    }
  }

  // ---------------------------------------------------------------- the graph

  type Dependents = map<EventId, seq<EventId>>

  function Children(dependents: Dependents, id: EventId): seq<EventId> {
    if id in dependents then dependents[id] else []
  }

  /** `children` lists each event that waits for `d` as often as the input names it. */
  ghost predicate ListsWaiting(d: EventId, children: seq<EventId>, m: multiset<EventId>, present: set<EventId>, store: EventStore)
    requires present <= store.Keys
  {
    && (forall c | c in children :: c in present)
    && forall c | c in present :: multiset(children)[c] == if d in Deps(c, present, store) then m[c] else 0
  }

  ghost predicate Indexed(dependents: Dependents, m: multiset<EventId>, present: set<EventId>, store: EventStore)
    requires present <= store.Keys
  {
    forall d :: ListsWaiting(d, Children(dependents, d), m, present, store)
  }

  ghost predicate KeysFor(keyOf: map<EventId, PowerKey>, ids: set<EventId>, store: EventStore)
    requires ids <= store.Keys
  {
    keyOf.Keys == ids && forall id | id in ids :: keyOf[id] == KeyOf(id, store)
  }

  /** `remaining` counts, for each of `ids`, its auth events in `todo`. */
  ghost predicate Counts(remaining: map<EventId, nat>, ids: set<EventId>, todo: set<EventId>, store: EventStore)
    requires ids <= store.Keys
  {
    remaining.Keys == ids && forall id | id in ids :: remaining[id] == |Deps(id, todo, store)|
  }

  method Register(id: EventId, deps: set<EventId>, before: Dependents) returns (dependents: Dependents)
    ensures forall d :: Children(dependents, d) == Children(before, d) + if d in deps then [id] else []
  {
    dependents := before;
    var rest := deps;
    while rest != {}
      invariant rest <= deps
      invariant forall d :: Children(dependents, d) == Children(before, d) + if d in deps - rest then [id] else []
    {
      var dep :| dep in rest;
      dependents := dependents[dep := Children(dependents, dep) + [id]];
      rest := rest - {dep};
    }
  }

  lemma IndexedStep(id: EventId, before: Dependents, after: Dependents, m: multiset<EventId>, present: set<EventId>, store: EventStore)
    requires id in present && present <= store.Keys
    requires Indexed(before, m, present, store)
    requires forall d ::
               Children(after, d) == Children(before, d) + if d in Deps(id, present, store) then [id] else []
    ensures Indexed(after, m + multiset{id}, present, store)
  {
    forall d ensures ListsWaiting(d, Children(after, d), m + multiset{id}, present, store) {
      assert ListsWaiting(d, Children(before, d), m, present, store);
    }
  }

  lemma NodesNext(id: EventId, keys: map<EventId, PowerKey>, counts: map<EventId, nat>, done: set<EventId>,
                  present: set<EventId>, store: EventStore)
    requires done <= present && id in present && present <= store.Keys
    requires KeysFor(keys, done, store)
    requires Counts(counts, done, present, store)
    ensures KeysFor(keys[id := KeyOf(id, store)], done + {id}, store)
    ensures Counts(counts[id := |Deps(id, present, store)|], done + {id}, present, store)
  {
  }

  /** Register one more named event; naming it again changes only who lists it. */
  method AddNode(id: EventId, keys: map<EventId, PowerKey>, counts: map<EventId, nat>, index: Dependents,
                 ghost done: set<EventId>, ghost m: multiset<EventId>, present: set<EventId>, store: EventStore)
    returns (keyOf: map<EventId, PowerKey>, remaining: map<EventId, nat>, dependents: Dependents)
    requires done <= present && id in present && present <= store.Keys
    requires KeysFor(keys, done, store)
    requires Counts(counts, done, present, store)
    requires Indexed(index, m, present, store)
    ensures KeysFor(keyOf, done + {id}, store)
    ensures Counts(remaining, done + {id}, present, store)
    ensures Indexed(dependents, m + multiset{id}, present, store)
  {
    var deps := Deps(id, present, store);
    keyOf := keys[id := KeyOf(id, store)];
    remaining := counts[id := |deps|];
    dependents := Register(id, deps, index);
    NodesNext(id, keys, counts, done, present, store);
    IndexedStep(id, index, dependents, m, present, store);
  }

  lemma NamesNext(events: seq<EventId>, i: nat)
    requires i < |events|
    ensures Elements(events[..i + 1]) == Elements(events[..i]) + {events[i]}
    ensures multiset(events[..i + 1]) == multiset(events[..i]) + multiset{events[i]}
  {
    assert events[..i + 1] == events[..i] + [events[i]];
  }

  lemma EmptyGraph(present: set<EventId>, store: EventStore)
    requires present <= store.Keys
    ensures KeysFor(map[], {}, store) && Counts(map[], {}, present, store)
    ensures Indexed(map[], multiset{}, present, store)
  {
  }

  method BuildGraph(events: seq<EventId>, store: EventStore)
    returns (keyOf: map<EventId, PowerKey>, remaining: map<EventId, nat>, dependents: Dependents)
    requires Elements(events) <= store.Keys
    ensures KeysFor(keyOf, Elements(events), store)
    ensures Counts(remaining, Elements(events), Elements(events), store)
    ensures Indexed(dependents, multiset(events), Elements(events), store)
  {
    var present := Elements(events);
    keyOf, remaining, dependents := map[], map[], map[];
    EmptyGraph(present, store);
    ghost var done: set<EventId>, m: multiset<EventId> := {}, multiset{};
    for i := 0 to |events|
      invariant done == Elements(events[..i]) && m == multiset(events[..i])
      invariant KeysFor(keyOf, done, store)
      invariant Counts(remaining, done, present, store)
      invariant Indexed(dependents, m, present, store)
    {
      var id := events[i];
      NamesNext(events, i);
      keyOf, remaining, dependents := AddNode(id, keyOf, remaining, dependents, done, m, present, store);
      done, m := done + {id}, m + multiset{id};
    }
    assert events[..|events|] == events;
  }

  // ---------------------------------------------------------------- releasing dependents

  function Sub(a: nat, b: nat): nat {
    if a < b then 0 else a - b
  }

  /** How often a count of `b`, decremented `k` times, is found at zero. */
  function Pushes(b: nat, k: nat): nat {
    Sub(k + 1, if b == 0 then 1 else b)
  }

  ghost predicate Released(children: seq<EventId>, before: map<EventId, nat>, after: map<EventId, nat>) {
    && after.Keys == before.Keys
    && forall c | c in before :: after[c] == Sub(before[c], multiset(children)[c])
  }

  ghost predicate Joined(children: seq<EventId>, keyOf: map<EventId, PowerKey>, before: map<EventId, nat>,
                         heap: multiset<PowerKey>, ready: multiset<PowerKey>)
    requires forall c | c in children :: c in before && c in keyOf
  {
    forall key ::
      ready[key] == heap[key] +
      if key.id in children && keyOf[key.id] == key then Pushes(before[key.id], multiset(children)[key.id]) else 0
  }

  lemma ReleasedNext(children: seq<EventId>, child: EventId, before: map<EventId, nat>, mid: map<EventId, nat>)
    requires Released(children, before, mid) && child in mid
    ensures Released(children + [child], before, mid[child := Sub(mid[child], 1)])
  {
  }

  lemma PushesNext(b: nat, k: nat)
    ensures Pushes(b, 0) == 0
    ensures Pushes(b, k + 1) == Pushes(b, k) + if Sub(Sub(b, k), 1) == 0 then 1 else 0
  {
  }

  lemma JoinedNext(children: seq<EventId>, child: EventId, keyOf: map<EventId, PowerKey>, before: map<EventId, nat>,
                   count: nat, heap: multiset<PowerKey>, ready: multiset<PowerKey>)
    requires forall c | c in children + [child] :: c in before && c in keyOf && keyOf[c].id == c
    requires Joined(children, keyOf, before, heap, ready)
    requires count == Sub(Sub(before[child], multiset(children)[child]), 1)
    ensures Joined(children + [child], keyOf, before, heap, ready + if count == 0 then multiset{keyOf[child]} else multiset{})
  {
    var after := ready + if count == 0 then multiset{keyOf[child]} else multiset{};
    var longer := children + [child];
    assert child in longer;
    PushesNext(before[child], multiset(children)[child]);
    forall key: PowerKey
      ensures after[key] == heap[key] +
              if key.id in longer && keyOf[key.id] == key then Pushes(before[key.id], multiset(longer)[key.id]) else 0
    {
      assert child !in children ==> multiset(children)[child] == 0;
      assert key.id in longer <==> key.id in children || key.id == child;
    }
  }

  /** A decrement, not below zero, for each listed dependent; one found at zero joins the heap. */
  method Release(children: seq<EventId>, keyOf: map<EventId, PowerKey>, before: map<EventId, nat>, heap: multiset<PowerKey>)
    returns (remaining: map<EventId, nat>, ready: multiset<PowerKey>)
    requires forall c | c in children :: c in before && c in keyOf && keyOf[c].id == c
    ensures Released(children, before, remaining)
    ensures Joined(children, keyOf, before, heap, ready)
  {
    remaining, ready := before, heap;
    for j := 0 to |children|
      invariant Released(children[..j], before, remaining)
      invariant Joined(children[..j], keyOf, before, heap, ready)
    {
      var child := children[j];
      assert children[..j + 1] == children[..j] + [child];
      ReleasedNext(children[..j], child, before, remaining);
      JoinedNext(children[..j], child, keyOf, before, Sub(remaining[child], 1), heap, ready);
      if child in remaining {
        var count := Sub(remaining[child], 1);
        remaining := remaining[child := count];
        if count == 0 && child in keyOf {
          ready := ready + multiset{keyOf[child]};
        }
      }
    }
    assert children[..|children|] == children;
  }

  // ---------------------------------------------------------------- what the sort keeps on any input

  /** How often the heap has received an event with `n` auth events after `notices` decrements. */
  function Due(n: nat, notices: nat): nat {
    if n == 0 then 1 else Sub(notices + 1, n)
  }

  ghost function Notices(c: EventId, ordered: seq<EventId>, m: multiset<EventId>, present: set<EventId>, store: EventStore): nat
    requires c in store
  {
    m[c] * CountIn(ordered, Deps(c, present, store))
  }

  ghost predicate TallyOf(c: EventId, ordered: seq<EventId>, count: nat, ready: multiset<PowerKey>,
                          m: multiset<EventId>, present: set<EventId>, store: EventStore)
    requires c in store
  {
    var n, notices := |Deps(c, present, store)|, Notices(c, ordered, m, present, store);
    count == Sub(n, notices) && ready[KeyOf(c, store)] + multiset(ordered)[c] == Due(n, notices)
  }

  /** Every count and every heap entry is accounted for by what has been emitted. */
  ghost predicate Tally(ordered: seq<EventId>, remaining: map<EventId, nat>, ready: multiset<PowerKey>,
                        m: multiset<EventId>, present: set<EventId>, store: EventStore)
    requires present <= store.Keys
  {
    && (forall id | id in ordered :: id in present)
    && (forall key | key in ready :: key.id in present && key == KeyOf(key.id, store))
    && remaining.Keys == present
    && forall c {:trigger TallyOf(c, ordered, remaining[c], ready, m, present, store)} | c in present ::
         TallyOf(c, ordered, remaining[c], ready, m, present, store)
  }

  function Seed(keyOf: map<EventId, PowerKey>, remaining: map<EventId, nat>): multiset<PowerKey> {
    multiset(set id | id in remaining && remaining[id] == 0 && id in keyOf :: keyOf[id])
  }

  lemma SeedTally(keyOf: map<EventId, PowerKey>, remaining: map<EventId, nat>, m: multiset<EventId>,
                  present: set<EventId>, store: EventStore)
    requires present <= store.Keys
    requires KeysFor(keyOf, present, store)
    requires Counts(remaining, present, present, store)
    ensures Tally([], remaining, Seed(keyOf, remaining), m, present, store)
  {
    var seeds := set id | id in remaining && remaining[id] == 0 && id in keyOf :: keyOf[id];
    forall c | c in present ensures TallyOf(c, [], remaining[c], Seed(keyOf, remaining), m, present, store) {
      assert KeyOf(c, store) in seeds <==> remaining[c] == 0;
      assert Notices(c, [], m, present, store) == 0;
    }
  }

  lemma DueStep(n: nat, notices: nat, k: nat)
    requires n > 0
    ensures Due(n, notices + k) == Due(n, notices) + Pushes(Sub(n, notices), k)
    ensures Sub(n, notices + k) == Sub(Sub(n, notices), k)
  {
  }

  lemma NoticesNext(c: EventId, ordered: seq<EventId>, id: EventId, m: multiset<EventId>, present: set<EventId>, store: EventStore)
    requires c in store
    ensures Notices(c, ordered + [id], m, present, store) ==
            Notices(c, ordered, m, present, store) + if id in Deps(c, present, store) then m[c] else 0
  {
    CountInNext(ordered, id, Deps(c, present, store));
  }

  lemma PopTallies(key: PowerKey, children: seq<EventId>, keyOf: map<EventId, PowerKey>, ordered: seq<EventId>,
                   before: map<EventId, nat>, after: map<EventId, nat>, heap: multiset<PowerKey>, ready: multiset<PowerKey>,
                   m: multiset<EventId>, present: set<EventId>, store: EventStore)
    requires present <= store.Keys
    requires KeysFor(keyOf, present, store)
    requires Tally(ordered, before, heap, m, present, store)
    requires key in heap && ListsWaiting(key.id, children, m, present, store)
    requires Released(children, before, after)
    requires Joined(children, keyOf, before, heap - multiset{key}, ready)
    ensures Tally(ordered + [key.id], after, ready, m, present, store)
  {
    assert key.id in present && key == KeyOf(key.id, store);
    forall c | c in present ensures TallyOf(c, ordered + [key.id], after[c], ready, m, present, store) {
      var k := multiset(children)[c];
      assert TallyOf(c, ordered, before[c], heap, m, present, store);
      assert c in children <==> k > 0;
      PushesNext(before[c], k);
      assert ready[KeyOf(c, store)] == (heap - multiset{key})[KeyOf(c, store)] + Pushes(before[c], k);
      TallyNext(c, key, k, ordered, before[c], heap, ready, m, present, store);
    }
    forall k: PowerKey | k in ready ensures k.id in present && k == KeyOf(k.id, store) {
      assert k in heap || k.id in children;
    }
  }

  lemma TallyNext(c: EventId, key: PowerKey, k: nat, ordered: seq<EventId>, count: nat, heap: multiset<PowerKey>, ready: multiset<PowerKey>,
                  m: multiset<EventId>, present: set<EventId>, store: EventStore)
    requires c in store && TallyOf(c, ordered, count, heap, m, present, store)
    requires key in heap && key.id in store && key == KeyOf(key.id, store)
    requires k == if key.id in Deps(c, present, store) then m[c] else 0
    requires ready[KeyOf(c, store)] == (heap - multiset{key})[KeyOf(c, store)] + Pushes(count, k)
    ensures TallyOf(c, ordered + [key.id], Sub(count, k), ready, m, present, store)
  {
    var n, notices := |Deps(c, present, store)|, Notices(c, ordered, m, present, store);
    NoticesNext(c, ordered, key.id, m, present, store);
    if n > 0 {
      DueStep(n, notices, k);
    }
  }

  // ---------------------------------------------------------------- an acyclic graph: the loop ends

  /** A cap on how often an event of rank at most `r` is emitted. */
  function RankCap(w: nat, r: nat): nat {
    if r == 0 then 1 else 1 + w * (w * RankCap(w, r - 1))
  }

  lemma Multiplies(a: nat, b: nat, c: nat, d: nat)
    requires a <= c && b <= d
    ensures a * b <= c * d
  {
    assert a * b <= c * b <= c * d;
  }

  /** `w` is at least the number of present events and of times any is named. */
  ghost predicate Wide(w: nat, m: multiset<EventId>, present: set<EventId>) {
    |present| <= w && forall c | c in present :: 1 <= m[c] <= w
  }

  lemma EmittedCap(c: EventId, cap: nat, w: nat, ordered: seq<EventId>, remaining: map<EventId, nat>, ready: multiset<PowerKey>,
                   m: multiset<EventId>, present: set<EventId>, store: EventStore)
    requires c in present && present <= store.Keys
    requires Tally(ordered, remaining, ready, m, present, store)
    requires |present| <= w && m[c] <= w
    requires forall d | d in Deps(c, present, store) :: multiset(ordered)[d] <= cap
    ensures multiset(ordered)[c] <= 1 + w * (w * cap)
  {
    assert TallyOf(c, ordered, remaining[c], ready, m, present, store);
    var deps := Deps(c, present, store);
    CountInAtMost(ordered, deps, cap);
    SubsetSize(deps, present);
    Multiplies(|deps|, cap, w, cap);
    Multiplies(m[c], CountIn(ordered, deps), w, w * cap);
  }

  lemma {:induction false} EmittedAtMost(c: EventId, r: nat, rank: map<EventId, nat>, w: nat, ordered: seq<EventId>,
                                         remaining: map<EventId, nat>, ready: multiset<PowerKey>,
                                         m: multiset<EventId>, present: set<EventId>, store: EventStore)
    requires c in present && present <= store.Keys
    requires RankedBy(rank, present, store) && Wide(w, m, present)
    requires Tally(ordered, remaining, ready, m, present, store)
    requires rank[c] <= r
    ensures multiset(ordered)[c] <= RankCap(w, r)
    decreases r
  {
    if r > 0 {
      var cap := RankCap(w, r - 1);
      forall d | d in Deps(c, present, store) ensures multiset(ordered)[d] <= cap {
        EmittedAtMost(d, r - 1, rank, w, ordered, remaining, ready, m, present, store);
      }
      EmittedCap(c, cap, w, ordered, remaining, ready, m, present, store);
    } else {
      assert Deps(c, present, store) == {};
      EmittedCap(c, 0, w, ordered, remaining, ready, m, present, store);
    }
  }

  lemma {:induction false} HighestRank(present: set<EventId>, rank: map<EventId, nat>) returns (r: nat)
    requires present <= rank.Keys
    ensures forall c | c in present :: rank[c] <= r
  {
    r := 0;
    if present != {} {
      var x :| x in present;
      r := HighestRank(present - {x}, rank);
      if r < rank[x] {
        r := rank[x];
      }
    }
  }

  /** The emitted sequence never grows beyond `bound`. */
  ghost predicate Bounds(bound: nat, m: multiset<EventId>, present: set<EventId>, store: EventStore)
    requires present <= store.Keys
  {
    forall ordered, remaining, ready | Tally(ordered, remaining, ready, m, present, store) :: |ordered| <= bound
  }

  lemma BoundExists(w: nat, m: multiset<EventId>, present: set<EventId>, store: EventStore) returns (bound: nat)
    requires present <= store.Keys
    requires AcyclicWithin(present, store) && Wide(w, m, present)
    ensures Bounds(bound, m, present, store)
  {
    var rank :| RankedBy(rank, present, store);
    var r := HighestRank(present, rank);
    var cap := RankCap(w, r);
    bound := |present| * cap;
    forall ordered, remaining, ready | Tally(ordered, remaining, ready, m, present, store) ensures |ordered| <= bound {
      forall c | c in present ensures multiset(ordered)[c] <= cap {
        EmittedAtMost(c, r, rank, w, ordered, remaining, ready, m, present, store);
      }
      CountInAll(ordered, present);
      CountInAtMost(ordered, present, cap);
    }
  }

  // ---------------------------------------------------------------- repeated ids

  /** No stored event that waits for another is named twice. */
  ghost predicate Unrepeated(m: multiset<EventId>, present: set<EventId>, store: EventStore)
    requires present <= store.Keys
  {
    forall c | c in present :: m[c] <= 1 || Deps(c, present, store) == {}
  }

  lemma {:induction false} AllEmitted(r: nat, rank: map<EventId, nat>, ordered: seq<EventId>, remaining: map<EventId, nat>,
                                      m: multiset<EventId>, present: set<EventId>, store: EventStore)
    requires present <= store.Keys
    requires RankedBy(rank, present, store) && forall c | c in present :: m[c] >= 1
    requires Tally(ordered, remaining, multiset{}, m, present, store)
    ensures forall c | c in present && rank[c] <= r :: c in ordered
  {
    if r > 0 {
      AllEmitted(r - 1, rank, ordered, remaining, m, present, store);
    }
    forall c | c in present && rank[c] <= r ensures c in ordered {
      assert TallyOf(c, ordered, remaining[c], multiset{}, m, present, store);
      var deps := Deps(c, present, store);
      forall d | d in deps ensures d in ordered {
        assert rank[d] < rank[c];
      }
      CountInAtLeast(ordered, deps);
      Multiplies(1, CountIn(ordered, deps), m[c], CountIn(ordered, deps));
      assert c in multiset(ordered);
    }
  }

  lemma EmittedTwice(c: EventId, ordered: seq<EventId>, count: nat, m: multiset<EventId>, present: set<EventId>, store: EventStore)
    requires c in store && TallyOf(c, ordered, count, multiset{}, m, present, store)
    requires m[c] >= 2 && Deps(c, present, store) != {}
    requires forall d | d in Deps(c, present, store) :: d in ordered
    ensures multiset(ordered)[c] >= 2
  {
    var deps := Deps(c, present, store);
    CountInAtLeast(ordered, deps);
    Multiplies(2, CountIn(ordered, deps), m[c], CountIn(ordered, deps));
  }

  /** Some event that is named twice comes out twice. */
  ghost predicate EmitsTwice(ordered: seq<EventId>, m: multiset<EventId>, present: set<EventId>) {
    exists c :: c in present && m[c] >= 2 && multiset(ordered)[c] >= 2
  }

  /** An event that waits for another and is named twice comes out twice. */
  lemma RepeatsShow(ordered: seq<EventId>, remaining: map<EventId, nat>, m: multiset<EventId>, present: set<EventId>, store: EventStore)
    requires present <= store.Keys
    requires AcyclicWithin(present, store) && forall c | c in present :: m[c] >= 1
    requires Tally(ordered, remaining, multiset{}, m, present, store)
    requires !Unrepeated(m, present, store)
    ensures EmitsTwice(ordered, m, present)
    ensures !IsPowerOrder(ordered, present, store)
  {
    var rank :| RankedBy(rank, present, store);
    var r := HighestRank(present, rank);
    AllEmitted(r, rank, ordered, remaining, m, present, store);
    var c :| c in present && m[c] > 1 && Deps(c, present, store) != {};
    assert TallyOf(c, ordered, remaining[c], multiset{}, m, present, store);
    EmittedTwice(c, ordered, remaining[c], m, present, store);
    TwiceIsNotGreedy(ordered, c, present, store);
  }

  lemma TwiceIsNotGreedy(ordered: seq<EventId>, c: EventId, present: set<EventId>, store: EventStore)
    requires present <= store.Keys
    requires multiset(ordered)[c] >= 2
    ensures !Greedy(ordered, present, store)
  {
    if Greedy(ordered, present, store) {
      forall i, j | 0 <= i < j < |ordered| ensures ordered[i] != ordered[j] {
        PowerOrderTopological(ordered, j, present, store);
        assert ordered[i] == ordered[..j][i];
      }
      DistinctMultiset(ordered);
    }
  }

  // ---------------------------------------------------------------- without repeats: the greedy order

  ghost predicate ChildrenOf(d: EventId, children: seq<EventId>, done: set<EventId>, present: set<EventId>, store: EventStore)
    requires done <= store.Keys
  {
    && Distinct(children)
    && forall c :: c in children <==> c in done && d in Deps(c, present, store)
  }

  lemma WaitingOnce(d: EventId, children: seq<EventId>, m: multiset<EventId>, present: set<EventId>, store: EventStore)
    requires present <= store.Keys
    requires Unrepeated(m, present, store) && forall c | c in present :: m[c] >= 1
    requires ListsWaiting(d, children, m, present, store)
    ensures ChildrenOf(d, children, present, present, store)
  {
    forall i, j | 0 <= i < j < |children| ensures children[i] != children[j] {
      if children[i] == children[j] {
        RepeatCount(children, i, j);
      }
    }
    forall c ensures c in children <==> c in present && d in Deps(c, present, store) {
      assert c in children <==> c in multiset(children);
    }
  }

  ghost predicate Decremented(children: seq<EventId>, before: map<EventId, nat>, after: map<EventId, nat>) {
    && after.Keys == before.Keys
    && forall c | c in before :: after[c] + (if c in children then 1 else 0) == before[c]
  }

  ghost predicate Pushed(children: seq<EventId>, keyOf: map<EventId, PowerKey>, before: map<EventId, nat>,
                         heap: multiset<PowerKey>, ready: multiset<PowerKey>)
    requires forall c | c in children :: c in before && c in keyOf
  {
    forall key ::
      ready[key] == heap[key] +
      if key.id in children && keyOf[key.id] == key && before[key.id] == 1 then 1 else 0
  }

  lemma ReleasedOnce(children: seq<EventId>, keyOf: map<EventId, PowerKey>, before: map<EventId, nat>, after: map<EventId, nat>,
                     heap: multiset<PowerKey>, ready: multiset<PowerKey>)
    requires Distinct(children)
    requires forall c | c in children :: c in before && c in keyOf && keyOf[c].id == c && before[c] > 0
    requires Released(children, before, after)
    requires Joined(children, keyOf, before, heap, ready)
    ensures Decremented(children, before, after)
    ensures Pushed(children, keyOf, before, heap, ready)
  {
    DistinctMultiset(children);
  }

  /** The heap holds the key of each available event, once. */
  ghost predicate HeapOf(ready: multiset<PowerKey>, avail: set<EventId>, store: EventStore)
    requires avail <= store.Keys
  {
    forall key :: ready[key] == if key.id in avail && key == KeyOf(key.id, store) then 1 else 0
  }

  lemma HeapCovers(ready: multiset<PowerKey>, avail: set<EventId>, store: EventStore)
    requires avail <= store.Keys
    requires HeapOf(ready, avail, store)
    ensures forall id | id in avail :: KeyOf(id, store) in ready
    ensures forall key | key in ready :: key.id in avail && key == KeyOf(key.id, store)
  {
    forall id | id in avail ensures KeyOf(id, store) in ready {
      assert ready[KeyOf(id, store)] == 1;
    }
    forall key | key in ready ensures key.id in avail && key == KeyOf(key.id, store) {
      assert ready[key] > 0;
    }
  }

  /** The popped key is that of the next event of the greedy order. */
  lemma PopIsNext(key: PowerKey, ready: multiset<PowerKey>, todo: set<EventId>, store: EventStore)
    requires todo <= store.Keys
    requires HeapOf(ready, Available(todo, store), store)
    requires IsGreatest(key, ready)
    ensures IsNext(key.id, todo, store)
    ensures key == KeyOf(key.id, store)
  {
    HeapCovers(ready, Available(todo, store), store);
  }

  /** What `c` waits for once `id` has been emitted. */
  lemma DepsAfter(c: EventId, id: EventId, todo: set<EventId>, store: EventStore)
    requires c in store && id in todo
    ensures Deps(c, todo - {id}, store) == Deps(c, todo, store) - {id}
    ensures id in Deps(c, todo, store) ==>
              && |Deps(c, todo - {id}, store)| == |Deps(c, todo, store)| - 1
              && (|Deps(c, todo, store)| == 1 <==> Deps(c, todo - {id}, store) == {})
    ensures id !in Deps(c, todo, store) ==> Deps(c, todo - {id}, store) == Deps(c, todo, store)
  {
    assert Deps(c, todo - {id}, store) == Deps(c, todo, store) - {id};
  }

  lemma CountsAfter(id: EventId, children: seq<EventId>, before: map<EventId, nat>, after: map<EventId, nat>,
                    todo: set<EventId>, present: set<EventId>, store: EventStore)
    requires todo <= present <= store.Keys
    requires id in todo
    requires Counts(before, present, todo, store)
    requires ChildrenOf(id, children, present, present, store)
    requires Decremented(children, before, after)
    ensures Counts(after, present, todo - {id}, store)
  {
    forall c | c in present ensures after[c] == |Deps(c, todo - {id}, store)| {
      DepsAfter(c, id, todo, store);
    }
  }

  lemma HeapAfter(key: PowerKey, children: seq<EventId>, keyOf: map<EventId, PowerKey>, before: map<EventId, nat>,
                  heap: multiset<PowerKey>, ready: multiset<PowerKey>,
                  todo: set<EventId>, present: set<EventId>, store: EventStore)
    requires todo <= present <= store.Keys
    requires Counts(before, present, todo, store) && KeysFor(keyOf, present, store)
    requires HeapOf(heap, Available(todo, store), store)
    requires key.id in Available(todo, store) && key == KeyOf(key.id, store)
    requires ChildrenOf(key.id, children, present, present, store)
    requires forall c | c in children :: c in todo
    requires Pushed(children, keyOf, before, heap - multiset{key}, ready)
    ensures HeapOf(ready, Available(todo - {key.id}, store), store)
  {
    forall k: PowerKey
      ensures ready[k] == if k.id in Available(todo - {key.id}, store) && k == KeyOf(k.id, store) then 1 else 0
    {
      if k.id in todo {
        DepsAfter(k.id, key.id, todo, store);
      }
    }
  }

  /** The state of the sort between two pops. */
  ghost predicate SortState(ordered: seq<EventId>, remaining: map<EventId, nat>, ready: multiset<PowerKey>,
                            present: set<EventId>, store: EventStore)
    requires present <= store.Keys
  {
    var todo := Todo(ordered, present);
    && Greedy(ordered, present, store)
    && (forall id | id in ordered :: id in present && Deps(id, todo, store) == {})
    && Counts(remaining, present, todo, store)
    && HeapOf(ready, Available(todo, store), store)
  }

  lemma SeedIsSortState(keyOf: map<EventId, PowerKey>, remaining: map<EventId, nat>, present: set<EventId>, store: EventStore)
    requires present <= store.Keys
    requires KeysFor(keyOf, present, store)
    requires Counts(remaining, present, present, store)
    ensures SortState([], remaining, Seed(keyOf, remaining), present, store)
  {
    assert Todo([], present) == present;
    var seeds := set id | id in remaining && remaining[id] == 0 && id in keyOf :: keyOf[id];
    forall key: PowerKey
      ensures key in seeds <==> key.id in Available(present, store) && key == KeyOf(key.id, store)
    {
      if key.id in present {
        assert |Deps(key.id, present, store)| == 0 <==> Deps(key.id, present, store) == {};
      }
    }
  }

  /** A dependent of an unplaced event is itself unplaced and counts it. */
  lemma ChildrenWait(id: EventId, children: seq<EventId>, ordered: seq<EventId>, remaining: map<EventId, nat>,
                     ready: multiset<PowerKey>, present: set<EventId>, store: EventStore)
    requires present <= store.Keys
    requires SortState(ordered, remaining, ready, present, store)
    requires id in Todo(ordered, present)
    requires ChildrenOf(id, children, present, present, store)
    ensures forall c | c in children :: c in Todo(ordered, present) && c in remaining && remaining[c] > 0
  {
    var todo := Todo(ordered, present);
    forall c | c in children ensures c in todo && remaining[c] > 0 {
      assert id in Deps(c, todo, store);
    }
  }

  lemma PopPreserves(key: PowerKey, children: seq<EventId>, keyOf: map<EventId, PowerKey>, ordered: seq<EventId>,
                     before: map<EventId, nat>, after: map<EventId, nat>,
                     heap: multiset<PowerKey>, ready: multiset<PowerKey>, present: set<EventId>, store: EventStore)
    requires present <= store.Keys
    requires KeysFor(keyOf, present, store)
    requires SortState(ordered, before, heap, present, store)
    requires IsNext(key.id, Todo(ordered, present), store) && key == KeyOf(key.id, store)
    requires ChildrenOf(key.id, children, present, present, store)
    requires Decremented(children, before, after)
    requires Pushed(children, keyOf, before, heap - multiset{key}, ready)
    ensures SortState(ordered + [key.id], after, ready, present, store)
  {
    var id, todo := key.id, Todo(ordered, present);
    ChildrenWait(id, children, ordered, before, heap, present, store);
    GreedySnoc(ordered, id, present, store);
    HeapAfter(key, children, keyOf, before, heap, ready, todo, present, store);
    CountsAfter(id, children, before, after, todo, present, store);
    forall c | c in ordered + [id] ensures Deps(c, todo - {id}, store) == {} {
      assert Deps(c, todo, store) == {};
    }
  }

  lemma PopKeepsOrder(key: PowerKey, children: seq<EventId>, keyOf: map<EventId, PowerKey>, ordered: seq<EventId>,
                      before: map<EventId, nat>, after: map<EventId, nat>, heap: multiset<PowerKey>, ready: multiset<PowerKey>,
                      m: multiset<EventId>, present: set<EventId>, store: EventStore)
    requires present <= store.Keys
    requires KeysFor(keyOf, present, store)
    requires Unrepeated(m, present, store) && forall c | c in present :: m[c] >= 1
    requires SortState(ordered, before, heap, present, store)
    requires IsGreatest(key, heap) && ListsWaiting(key.id, children, m, present, store)
    requires Released(children, before, after)
    requires Joined(children, keyOf, before, heap - multiset{key}, ready)
    ensures SortState(ordered + [key.id], after, ready, present, store)
  {
    WaitingOnce(key.id, children, m, present, store);
    PopIsNext(key, heap, Todo(ordered, present), store);
    ChildrenWait(key.id, children, ordered, before, heap, present, store);
    ReleasedOnce(children, keyOf, before, after, heap - multiset{key}, ready);
    PopPreserves(key, children, keyOf, ordered, before, after, heap, ready, present, store);
  }

  /** A greedy sequence is no longer than the set it orders. */
  lemma GreedyLength(ordered: seq<EventId>, present: set<EventId>, store: EventStore)
    requires present <= store.Keys
    requires Greedy(ordered, present, store)
    ensures |ordered| <= |present|
  {
    forall i, j | 0 <= i < j < |ordered| ensures ordered[i] != ordered[j] {
      PowerOrderTopological(ordered, j, present, store);
      assert ordered[i] == ordered[..j][i];
    }
    DistinctMultiset(ordered);
    forall id | id in Elements(ordered) ensures id in present {
      var k :| 0 <= k < |ordered| && ordered[k] == id;
      PowerOrderTopological(ordered, k, present, store);
    }
    SubsetSize(Elements(ordered), present);
    assert |ordered| == |multiset(ordered)| == |Elements(ordered)|;
  }

  // ---------------------------------------------------------------- the sort

  ghost function Present(ids: seq<EventId>, store: EventStore): set<EventId> {
    Elements(ids) * store.Keys
  }

  method PresentEvents(ids: seq<EventId>, store: EventStore) returns (events: seq<EventId>)
    requires KeyedById(store)
    ensures Elements(events) == Present(ids, store)
    ensures forall id | id in store :: multiset(events)[id] == multiset(ids)[id]
  {
    events := [];
    for i := 0 to |ids|
      invariant Elements(events) == Present(ids[..i], store)
      invariant forall id | id in store :: multiset(events)[id] == multiset(ids[..i])[id]
    {
      assert ids[..i + 1] == ids[..i] + [ids[i]];
      assert Elements(ids[..i + 1]) == Elements(ids[..i]) + {ids[i]};
      if ids[i] in store {
        assert Elements(events + [ids[i]]) == Elements(events) + {ids[i]};
        events := events + [store[ids[i]].id];
      }
    }
    assert ids[..|ids|] == ids;
  }

  lemma NamesAreWide(events: seq<EventId>)
    ensures Wide(|events|, multiset(events), Elements(events))
  {
    ElementsSize(events);
    forall c | c in Elements(events) ensures 1 <= multiset(events)[c] <= |events| {
      assert c in multiset(events);
      assert multiset(events) == (multiset(events) - multiset{c}[c := multiset(events)[c]]) + multiset{c}[c := multiset(events)[c]];
    }
  }

  /** `bound` caps the length of the output, whichever way the loop is known to end. */
  ghost predicate Caps(bound: nat, m: multiset<EventId>, present: set<EventId>, store: EventStore)
    requires present <= store.Keys
  {
    && |present| <= bound
    && (!Unrepeated(m, present, store) ==> Bounds(bound, m, present, store))
  }

  lemma CapExists(m: multiset<EventId>, w: nat, present: set<EventId>, store: EventStore) returns (bound: nat)
    requires present <= store.Keys
    requires Wide(w, m, present)
    requires Unrepeated(m, present, store) || AcyclicWithin(present, store)
    ensures Caps(bound, m, present, store)
  {
    bound := |present|;
    if !Unrepeated(m, present, store) {
      bound := BoundExists(w, m, present, store);
      bound := bound + |present|;
    }
  }

  /** Between two pops. */
  ghost predicate Progress(ordered: seq<EventId>, remaining: map<EventId, nat>, ready: multiset<PowerKey>,
                           m: multiset<EventId>, present: set<EventId>, store: EventStore)
    requires present <= store.Keys
  {
    && Tally(ordered, remaining, ready, m, present, store)
    && (Unrepeated(m, present, store) ==> SortState(ordered, remaining, ready, present, store))
  }

  lemma ProgressNext(key: PowerKey, children: seq<EventId>, keyOf: map<EventId, PowerKey>, ordered: seq<EventId>,
                     before: map<EventId, nat>, after: map<EventId, nat>, heap: multiset<PowerKey>, ready: multiset<PowerKey>,
                     m: multiset<EventId>, present: set<EventId>, store: EventStore)
    requires present <= store.Keys
    requires KeysFor(keyOf, present, store) && forall c | c in present :: m[c] >= 1
    requires Progress(ordered, before, heap, m, present, store)
    requires IsGreatest(key, heap) && ListsWaiting(key.id, children, m, present, store)
    requires Released(children, before, after)
    requires Joined(children, keyOf, before, heap - multiset{key}, ready)
    ensures Progress(ordered + [key.id], after, ready, m, present, store)
  {
    PopTallies(key, children, keyOf, ordered, before, after, heap, ready, m, present, store);
    if Unrepeated(m, present, store) {
      PopKeepsOrder(key, children, keyOf, ordered, before, after, heap, ready, m, present, store);
    }
  }

  lemma ProgressCapped(ordered: seq<EventId>, remaining: map<EventId, nat>, ready: multiset<PowerKey>, bound: nat,
                       m: multiset<EventId>, present: set<EventId>, store: EventStore)
    requires present <= store.Keys
    requires Caps(bound, m, present, store) && Progress(ordered, remaining, ready, m, present, store)
    ensures |ordered| <= bound
  {
    if Unrepeated(m, present, store) {
      GreedyLength(ordered, present, store);
    }
  }

  lemma ProgressEnds(ordered: seq<EventId>, remaining: map<EventId, nat>, m: multiset<EventId>, present: set<EventId>, store: EventStore)
    requires present <= store.Keys && forall c | c in present :: m[c] >= 1
    requires Progress(ordered, remaining, multiset{}, m, present, store)
    requires Unrepeated(m, present, store) || AcyclicWithin(present, store)
    ensures IsPowerOrder(ordered, present, store) <==> Unrepeated(m, present, store)
    ensures !Unrepeated(m, present, store) ==> EmitsTwice(ordered, m, present)
  {
    if Unrepeated(m, present, store) {
      HeapCovers(multiset{}, Available(Todo(ordered, present), store), store);
    } else {
      RepeatsShow(ordered, remaining, m, present, store);
    }
  }

  /** The sort computes the greedy power order exactly when no event that waits for another is named
      twice. On a cyclic graph with such a repeat it need not end. */
  method ReverseTopologicalPowerSort(ids: seq<EventId>, store: EventStore) returns (ordered: seq<EventId>)
    requires KeyedById(store)
    requires Unrepeated(multiset(ids), Present(ids, store), store) || AcyclicWithin(Present(ids, store), store)
    ensures IsPowerOrder(ordered, Present(ids, store), store) <==> Unrepeated(multiset(ids), Present(ids, store), store)
    ensures !Unrepeated(multiset(ids), Present(ids, store), store) ==> EmitsTwice(ordered, multiset(ids), Present(ids, store))
  {
    var events := PresentEvents(ids, store);
    ghost var present, m := Elements(events), multiset(events);
    NamesAreWide(events);
    ghost var bound := CapExists(m, |events|, present, store);

    var keyOf, remaining, dependents := BuildGraph(events, store);
    var ready := Seed(keyOf, remaining);
    SeedIsSortState(keyOf, remaining, present, store);
    SeedTally(keyOf, remaining, m, present, store);
    ordered := [];
    while ready != multiset{}
      invariant Progress(ordered, remaining, ready, m, present, store)
      decreases bound - |ordered|
    {
      GreatestExists(ready);
      var key :| key in ready && forall other | other in ready :: other == key || Greater(key, other);
      ghost var before, heap := remaining, ready;
      var children := Children(dependents, key.id);
      assert ListsWaiting(key.id, children, m, present, store);
      remaining, ready := Release(children, keyOf, remaining, ready - multiset{key});
      ProgressNext(key, children, keyOf, ordered, before, remaining, heap, ready, m, present, store);
      ordered := ordered + [key.id];
      ProgressCapped(ordered, remaining, ready, bound, m, present, store);
    }
    ProgressEnds(ordered, remaining, m, present, store);
  }

  lemma RepeatedPair(a: Event, b: Event, store: EventStore, ids: seq<EventId>)
    requires a.id != b.id && a.auth == [] && b.auth == [a.id]
    requires store == map[a.id := a, b.id := b] && ids == [a.id, b.id, b.id]
    ensures Present(ids, store) == {a.id, b.id}
    ensures AcyclicWithin(Present(ids, store), store)
    ensures !Unrepeated(multiset(ids), Present(ids, store), store)
  {
    assert a.id in ids && b.id in ids && b.id == ids[2];
    assert Present(ids, store) == {a.id, b.id};
    assert RankedBy(map[a.id := 0, b.id := 1], Present(ids, store), store);
    assert a.id in Deps(b.id, Present(ids, store), store);
  }

  /** Any event and one that waits for it, the second named twice: the sort emits it twice and loses
      the order. */
  method SortRepeatedPair(a: Event, b: Event) returns (ordered: seq<EventId>)
    requires a.id != b.id && a.auth == [] && b.auth == [a.id]
    ensures multiset(ordered)[b.id] >= 2
    ensures var store: EventStore := map[a.id := a, b.id := b];
            !IsPowerOrder(ordered, {a.id, b.id}, store)
  {
    var store: EventStore := map[a.id := a, b.id := b];
    var ids := [a.id, b.id, b.id];
    RepeatedPair(a, b, store, ids);
    ordered := ReverseTopologicalPowerSort(ids, store);
    assert multiset(ids)[a.id] == 1;
  }
}
