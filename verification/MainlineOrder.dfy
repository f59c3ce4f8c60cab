/** Mainline ordering: the power-levels chain of the resolved event and the sort it induces. */
module MainlineOrder {
  import opened Basics
  import opened ByteOrder
  import opened RoomEvents
  import PowerSort

  // ---------------------------------------------------------------- power-levels links

  function FirstPowerLevels(auth: seq<EventId>, store: EventStore): Option<EventId> {
    if auth == [] then None
    else if auth[0] in store && store[auth[0]].eventType == POWER_LEVELS_TYPE then Some(auth[0])
    else FirstPowerLevels(auth[1..], store)
  }

  /** The first stored power-levels event that `id` lists as an auth event. */
  function PowerLevelsInAuth(id: EventId, store: EventStore): Option<EventId> {
    if id in store then FirstPowerLevels(store[id].auth, store) else None
  }

  ghost predicate LinksRanked(rank: map<EventId, nat>, store: EventStore) {
    forall id | id in store && PowerLevelsInAuth(id, store).Some? ::
      var parent := PowerLevelsInAuth(id, store).value;
      id in rank && parent in rank && rank[parent] < rank[id]
  }

  /** No power-levels event reaches itself through power-levels auth links. */
  ghost predicate LinksAcyclic(store: EventStore) {
    exists rank :: LinksRanked(rank, store)
  }

  lemma {:induction false} FirstPowerLevelsIsAuth(auth: seq<EventId>, store: EventStore)
    ensures FirstPowerLevels(auth, store).Some? ==>
              FirstPowerLevels(auth, store).value in auth && FirstPowerLevels(auth, store).value in store
  {
    if auth != [] {
      FirstPowerLevelsIsAuth(auth[1..], store);
    }
  }

  ghost predicate IsPowerLevels(id: EventId, store: EventStore) {
    id in store && store[id].eventType == "m.room.power_levels"
  }

  /** The auth event at the least index that is stored with the power-levels type. */
  ghost predicate FirstLink(k: int, auth: seq<EventId>, store: EventStore) {
    0 <= k < |auth| && IsPowerLevels(auth[k], store) && forall j | 0 <= j < k :: !IsPowerLevels(auth[j], store)
  }

  lemma {:induction false} FirstPowerLevelsIff(auth: seq<EventId>, store: EventStore)
    ensures match FirstPowerLevels(auth, store)
            case Some(link) => exists k :: FirstLink(k, auth, store) && auth[k] == link
            case None => forall id | id in auth :: !IsPowerLevels(id, store)
  {
    if auth != [] {
      var rest := auth[1..];
      FirstPowerLevelsIff(rest, store);
      assert auth == [auth[0]] + rest;
      if IsPowerLevels(auth[0], store) {
        assert FirstLink(0, auth, store);
      } else if k :| FirstLink(k, rest, store) && FirstPowerLevels(rest, store) == Some(rest[k]) {
        assert FirstLink(k + 1, auth, store);
      }
    }
  }

  /** The link of a stored event is its first power-levels auth event; other ids have none. */
  lemma LinkIff(id: EventId, store: EventStore)
    ensures match PowerLevelsInAuth(id, store)
            case Some(link) => id in store && exists k :: FirstLink(k, store[id].auth, store) && store[id].auth[k] == link
            case None => id in store ==> forall a | a in store[id].auth :: !IsPowerLevels(a, store)
  {
    if id in store {
      FirstPowerLevelsIff(store[id].auth, store);
    }
  }

  /** An acyclic auth graph has acyclic power-levels links. */
  lemma AcyclicAuthHasAcyclicLinks(store: EventStore)
    requires PowerSort.AcyclicWithin(store.Keys, store)
    ensures LinksAcyclic(store)
  {
    var rank :| PowerSort.RankedBy(rank, store.Keys, store);
    forall id | id in store && PowerLevelsInAuth(id, store).Some?
      ensures var parent := PowerLevelsInAuth(id, store).value;
              id in rank && parent in rank && rank[parent] < rank[id]
    {
      FirstPowerLevelsIsAuth(store[id].auth, store);
      assert PowerLevelsInAuth(id, store).value in PowerSort.Deps(id, store.Keys, store);
    }
    assert LinksRanked(rank, store);
  }

  ghost function Height(id: EventId, store: EventStore): (h: nat)
    requires LinksAcyclic(store)
    ensures PowerLevelsInAuth(id, store).Some? ==> h > 0
  {
    var rank :| LinksRanked(rank, store);
    if id in rank then rank[id] else 0
  }

  lemma LinkDescends(id: EventId, store: EventStore)
    requires LinksAcyclic(store)
    requires PowerLevelsInAuth(id, store).Some?
    ensures Height(PowerLevelsInAuth(id, store).value, store) < Height(id, store)
  {
  }

  /** `id` and everything reached from it by following power-levels links. */
  ghost function Chain(id: EventId, store: EventStore): (chain: seq<EventId>)
    requires LinksAcyclic(store)
    ensures chain != [] && chain[0] == id
    decreases Height(id, store)
  {
    match PowerLevelsInAuth(id, store)
    case None => [id]
    case Some(parent) => [id] + Chain(parent, store)
  }

  /** The chain from any of its members is the rest of the chain. */
  lemma {:induction false} ChainSuffix(id: EventId, k: nat, store: EventStore)
    requires LinksAcyclic(store)
    requires k < |Chain(id, store)|
    ensures Chain(Chain(id, store)[k], store) == Chain(id, store)[k..]
    decreases k
  {
    if k > 0 {
      var parent := PowerLevelsInAuth(id, store).value;
      ChainSuffix(parent, k - 1, store);
      assert Chain(id, store)[k..] == Chain(parent, store)[k - 1..];
    }
  }

  lemma {:induction false} ChainHeights(id: EventId, k: nat, store: EventStore)
    requires LinksAcyclic(store)
    requires 0 < k < |Chain(id, store)|
    ensures Height(Chain(id, store)[k], store) < Height(id, store)
    decreases k
  {
    var parent := PowerLevelsInAuth(id, store).value;
    LinkDescends(id, store);
    if k > 1 {
      ChainHeights(parent, k - 1, store);
    }
  }

  lemma ChainDistinct(id: EventId, store: EventStore)
    requires LinksAcyclic(store)
    ensures Distinct(Chain(id, store))
  {
    var chain := Chain(id, store);
    forall i, j | 0 <= i < j < |chain| ensures chain[i] != chain[j] {
      ChainSuffix(id, i, store);
      ChainHeights(chain[i], j - i, store);
    }
  }

  // ---------------------------------------------------------------- the mainline and its index

  ghost function Mainline(resolved: Option<EventId>, store: EventStore): seq<EventId>
    requires LinksAcyclic(store)
  {
    match resolved
    case None => []
    case Some(id) => Chain(id, store)
  }

  lemma MainlineDistinct(resolved: Option<EventId>, store: EventStore)
    requires LinksAcyclic(store)
    ensures Distinct(Mainline(resolved, store))
  {
    if resolved.Some? {
      ChainDistinct(resolved.value, store);
    }
  }

  /** Positions count from the root of the mainline (0) towards the resolved event. */
  ghost predicate IsIndex(index: map<EventId, nat>, mainline: seq<EventId>) {
    && (forall id :: id in index <==> id in mainline)
    && forall i | 0 <= i < |mainline| :: index[mainline[i]] == |mainline| - 1 - i
  }

  lemma IndexUnique(a: map<EventId, nat>, b: map<EventId, nat>, mainline: seq<EventId>)
    requires IsIndex(a, mainline) && IsIndex(b, mainline)
    ensures a == b
  {
    forall id | id in a ensures id in b && a[id] == b[id] {
      var i :| 0 <= i < |mainline| && mainline[i] == id;
    }
  }

  ghost function Positions(mainline: seq<EventId>): (index: map<EventId, nat>)
    requires Distinct(mainline)
    ensures IsIndex(index, mainline)
  {
    map id | id in mainline :: var i: nat :| i < |mainline| && mainline[i] == id; |mainline| - 1 - i
  }

  /** The index the ordering uses for a resolved power-levels event. */
  ghost function MainlineIndex(resolved: Option<EventId>, store: EventStore): map<EventId, nat>
    requires LinksAcyclic(store)
  {
    MainlineDistinct(resolved, store);
    Positions(Mainline(resolved, store))
  }

  method BuildMainline(resolved: Option<EventId>, store: EventStore) returns (mainline: seq<EventId>)
    requires LinksAcyclic(store)
    ensures mainline == Mainline(resolved, store)
  {
    mainline := [];
    var cursor := resolved;
    while cursor.Some?
      invariant mainline + Mainline(cursor, store) == Mainline(resolved, store)
      decreases cursor.Some?, if cursor.Some? then Height(cursor.value, store) else 0
    {
      var id := cursor.value;
      cursor := PowerLevelsInAuth(id, store);
      if cursor.Some? {
        LinkDescends(id, store);
      }
      assert Chain(id, store) == [id] + Mainline(cursor, store);
      mainline := mainline + [id];
    }
  }

  method BuildIndex(mainline: seq<EventId>) returns (index: map<EventId, nat>)
    requires Distinct(mainline)
    ensures IsIndex(index, mainline)
  {
    index := map[];
    var n := |mainline|;
    for position := 0 to n
      invariant forall id :: id in index <==> id in mainline[n - position..]
      invariant forall i | n - position <= i < n :: index[mainline[i]] == n - 1 - i
    {
      var id := mainline[n - 1 - position];
      assert mainline[n - position - 1..] == [id] + mainline[n - position..];
      index := index[id := position];
    }
    assert mainline[0..] == mainline;
  }

  // ---------------------------------------------------------------- depth

  /** The position of the first indexed member of `chain`, or zero. */
  ghost function DepthAlong(chain: seq<EventId>, index: map<EventId, nat>): nat {
    if chain == [] then 0
    else if chain[0] in index then index[chain[0]]
    else DepthAlong(chain[1..], index)
  }

  ghost function Depth(id: EventId, resolved: Option<EventId>, store: EventStore): nat
    requires LinksAcyclic(store)
  {
    DepthAlong(Chain(id, store), MainlineIndex(resolved, store))
  }

  method MainlineDepth(start: EventId, store: EventStore, index: map<EventId, nat>) returns (depth: nat)
    requires LinksAcyclic(store)
    ensures depth == DepthAlong(Chain(start, store), index)
  {
    var cursor := Some(start);
    while cursor.Some?
      invariant DepthAlong(Chain(start, store), index) == DepthAlong(Mainline(cursor, store), index)
      decreases cursor.Some?, if cursor.Some? then Height(cursor.value, store) else 0
    {
      var id := cursor.value;
      if id in index {
        return index[id];
      }
      cursor := PowerLevelsInAuth(id, store);
      if cursor.Some? {
        LinkDescends(id, store);
      }
      assert Chain(id, store)[1..] == Mainline(cursor, store);
    }
    return 0;
  }

  lemma {:induction false} FirstHit(chain: seq<EventId>, index: map<EventId, nat>)
    ensures || (DepthAlong(chain, index) == 0 && forall id | id in chain :: id !in index)
            || (exists k :: IsFirstHit(k, chain, index) && DepthAlong(chain, index) == index[chain[k]])
  {
    if chain != [] {
      if chain[0] in index {
        assert IsFirstHit(0, chain, index);
      } else {
        var rest := chain[1..];
        FirstHit(rest, index);
        if exists k :: IsFirstHit(k, rest, index) && DepthAlong(rest, index) == index[rest[k]] {
          var k :| IsFirstHit(k, rest, index) && DepthAlong(rest, index) == index[rest[k]];
          assert IsFirstHit(k + 1, chain, index);
        }
      }
    }
  }

  ghost predicate IsFirstHit(k: int, chain: seq<EventId>, index: map<EventId, nat>) {
    0 <= k < |chain| && chain[k] in index && forall j | 0 <= j < k :: chain[j] !in index
  }

  lemma SharedTail(chain: seq<EventId>, k: nat, j: nat, mainline: seq<EventId>, i: nat, index: map<EventId, nat>)
    requires IsIndex(index, mainline)
    requires k <= j < |chain| && i <= |mainline| && chain[k..] == mainline[i..]
    ensures chain[j] in index && index[chain[j]] <= index[chain[k]]
  {
    assert chain[j] == chain[k..][j - k] == mainline[i + (j - k)];
    assert chain[k] == chain[k..][0] == mainline[i];
  }

  /** Once a chain meets the mainline it stays on it, moving towards the root. */
  lemma ChainFollowsMainline(start: EventId, k: nat, j: nat, resolved: EventId, index: map<EventId, nat>, store: EventStore)
    requires LinksAcyclic(store)
    requires IsIndex(index, Chain(resolved, store))
    requires k <= j < |Chain(start, store)|
    requires Chain(start, store)[k] in index
    ensures Chain(start, store)[j] in index
    ensures index[Chain(start, store)[j]] <= index[Chain(start, store)[k]]
  {
    var chain, mainline := Chain(start, store), Chain(resolved, store);
    var i :| 0 <= i < |mainline| && mainline[i] == chain[k];
    ChainSuffix(start, k, store);
    ChainSuffix(resolved, i, store);
    SharedTail(chain, k, j, mainline, i, index);
  }

  /** The depth is the greatest mainline position anywhere on the event's power-levels chain, and
      zero when the chain never meets the mainline. */
  lemma DepthIsGreatest(id: EventId, resolved: Option<EventId>, store: EventStore)
    requires LinksAcyclic(store)
    ensures var index, chain := MainlineIndex(resolved, store), Chain(id, store);
            && (forall x | x in chain && x in index :: index[x] <= Depth(id, resolved, store))
            && (|| (exists x :: x in chain && x in index && index[x] == Depth(id, resolved, store))
                || (Depth(id, resolved, store) == 0 && forall x | x in chain :: x !in index))
  {
    var index, chain := MainlineIndex(resolved, store), Chain(id, store);
    FirstHit(chain, index);
    if exists k :: IsFirstHit(k, chain, index) && DepthAlong(chain, index) == index[chain[k]] {
      var k :| IsFirstHit(k, chain, index) && DepthAlong(chain, index) == index[chain[k]];
      forall x | x in chain && x in index ensures index[x] <= index[chain[k]] {
        var j :| 0 <= j < |chain| && chain[j] == x;
        ChainFollowsMainline(id, k, j, resolved.value, index, store);
      }
    }
  }

  // ---------------------------------------------------------------- the sort

  datatype MainKey = MainKey(depth: nat, ts: nat, id: EventId)

  /** Ascending by depth, then timestamp, then id. */
  predicate Before(a: MainKey, b: MainKey) {
    || a.depth < b.depth
    || (a.depth == b.depth && a.ts < b.ts)
    || (a.depth == b.depth && a.ts == b.ts && Less(a.id, b.id))
  }

  lemma BeforeTotal(a: MainKey, b: MainKey)
    ensures a == b || Before(a, b) || Before(b, a)
    ensures !(Before(a, b) && Before(b, a))
  {
    LessTotal(a.id, b.id);
  }

  lemma BeforeTransitive(a: MainKey, b: MainKey, c: MainKey)
    requires !Before(b, a) && !Before(c, b)
    ensures !Before(c, a)
  {
    LessTotal(a.id, b.id);
    LessTotal(b.id, c.id);
    LessTotal(a.id, c.id);
    if Less(a.id, b.id) && Less(b.id, c.id) {
      LessTransitive(a.id, b.id, c.id);
    }
  }

  ghost predicate Sorted(keys: seq<MainKey>) {
    forall i, j | 0 <= i < j < |keys| :: !Before(keys[j], keys[i])
  }

  function Ids(keys: seq<MainKey>): seq<EventId> {
    seq(|keys|, i requires 0 <= i < |keys| => keys[i].id)
  }

  lemma SortedCons(key: MainKey, keys: seq<MainKey>)
    requires Sorted(keys) && forall k | k in keys :: !Before(k, key)
    ensures Sorted([key] + keys)
  {
  }

  function Insert(key: MainKey, keys: seq<MainKey>): (r: seq<MainKey>)
    requires Sorted(keys)
    ensures Sorted(r)
    ensures forall k :: k in r <==> k in keys || k == key
    ensures multiset(Ids(r)) == multiset(Ids(keys)) + multiset{key.id}
  {
    if keys == [] then
      [key]
    else if Before(key, keys[0]) then
      InsertFront(key, keys);
      [key] + keys
    else
      var rest := Insert(key, keys[1..]);
      assert keys == [keys[0]] + keys[1..];
      assert Ids(keys) == [keys[0].id] + Ids(keys[1..]);
      assert Ids([keys[0]] + rest) == [keys[0].id] + Ids(rest);
      SortedCons(keys[0], rest);
      [keys[0]] + rest
  }

  lemma InsertFront(key: MainKey, keys: seq<MainKey>)
    requires Sorted(keys) && keys != [] && Before(key, keys[0])
    ensures Sorted([key] + keys)
    ensures multiset(Ids([key] + keys)) == multiset(Ids(keys)) + multiset{key.id}
  {
    assert Ids([key] + keys) == [key.id] + Ids(keys);
    forall j | 0 <= j < |keys| ensures !Before(keys[j], key) {
      BeforeTotal(key, keys[0]);
      if j > 0 {
        BeforeTransitive(key, keys[0], keys[j]);
      }
    }
    SortedCons(key, keys);
  }

  function Sort(keys: seq<MainKey>): (r: seq<MainKey>)
    ensures Sorted(r)
    ensures forall k :: k in r <==> k in keys
    ensures multiset(Ids(r)) == multiset(Ids(keys))
  {
    if keys == [] then []
    else
      assert keys == [keys[0]] + keys[1..];
      assert Ids(keys) == [keys[0].id] + Ids(keys[1..]);
      Insert(keys[0], Sort(keys[1..]))
  }

  ghost function KeyFor(id: EventId, resolved: Option<EventId>, store: EventStore): MainKey
    requires LinksAcyclic(store)
  {
    MainKey(Depth(id, resolved, store), if id in store then store[id].ts else 0, id)
  }

  /** `out` arranges `toOrder` ascending by (mainline depth, timestamp, id). */
  ghost predicate IsMainlineOrder(out: seq<EventId>, toOrder: multiset<EventId>, resolved: Option<EventId>, store: EventStore)
    requires LinksAcyclic(store)
  {
    && multiset(out) == toOrder
    && forall i, j | 0 <= i < j < |out| :: !Before(KeyFor(out[j], resolved, store), KeyFor(out[i], resolved, store))
  }

  ghost function TimeOf(id: EventId, store: EventStore): nat {
    if id in store then store[id].ts else 0
  }

  /** Nearer the root of the mainline, or as near and earlier, or as near and as early and no greater
      an id. */
  ghost predicate NoLater(x: EventId, y: EventId, resolved: Option<EventId>, store: EventStore)
    requires LinksAcyclic(store)
  {
    var d, e := Depth(x, resolved, store), Depth(y, resolved, store);
    || d < e
    || (d == e && TimeOf(x, store) < TimeOf(y, store))
    || (d == e && TimeOf(x, store) == TimeOf(y, store) && (x == y || Less(x, y)))
  }

  lemma NoLaterIff(x: EventId, y: EventId, resolved: Option<EventId>, store: EventStore)
    requires LinksAcyclic(store)
    ensures NoLater(x, y, resolved, store) <==> !Before(KeyFor(y, resolved, store), KeyFor(x, resolved, store))
  {
    LessTotal(x, y);
  }

  /** The mainline order by depth, timestamp and id: a permutation in which nobody comes before
      someone they should follow. */
  lemma MainlineOrderIff(out: seq<EventId>, toOrder: multiset<EventId>, resolved: Option<EventId>, store: EventStore)
    requires LinksAcyclic(store)
    ensures IsMainlineOrder(out, toOrder, resolved, store) <==>
            multiset(out) == toOrder && forall i, j | 0 <= i < j < |out| :: NoLater(out[i], out[j], resolved, store)
  {
    forall i, j | 0 <= i < j < |out|
      ensures NoLater(out[i], out[j], resolved, store) <==>
              !Before(KeyFor(out[j], resolved, store), KeyFor(out[i], resolved, store))
    {
      NoLaterIff(out[i], out[j], resolved, store);
    }
  }

  /** `out` is ascending by the keys of its members, which tell ids apart. */
  ghost predicate Ascends(out: seq<EventId>, keys: map<EventId, MainKey>) {
    && (forall id | id in out :: id in keys && keys[id].id == id)
    && forall i, j {:trigger InOrder(out[i], out[j], keys)} | 0 <= i < j < |out| :: InOrder(out[i], out[j], keys)
  }

  ghost predicate InOrder(x: EventId, y: EventId, keys: map<EventId, MainKey>) {
    x in keys && y in keys && !Before(keys[y], keys[x])
  }

  lemma SameHead(a: seq<EventId>, b: seq<EventId>, keys: map<EventId, MainKey>)
    requires Ascends(a, keys) && Ascends(b, keys)
    requires multiset(a) == multiset(b) && a != [] && b != []
    ensures a[0] == b[0]
  {
    assert a[0] in multiset(b) && b[0] in multiset(a);
    var i :| 0 <= i < |a| && a[i] == b[0];
    var j :| 0 <= j < |b| && b[j] == a[0];
    assert i == 0 || InOrder(a[0], a[i], keys);
    assert j == 0 || InOrder(b[0], b[j], keys);
    BeforeTotal(keys[a[0]], keys[b[0]]);
  }

  lemma AscendsTail(out: seq<EventId>, keys: map<EventId, MainKey>)
    requires Ascends(out, keys) && out != []
    ensures Ascends(out[1..], keys)
    ensures multiset(out[1..]) == multiset(out) - multiset{out[0]}
  {
    assert out == [out[0]] + out[1..];
  }

  lemma {:induction false} AscendingUnique(a: seq<EventId>, b: seq<EventId>, keys: map<EventId, MainKey>)
    requires Ascends(a, keys) && Ascends(b, keys)
    requires multiset(a) == multiset(b)
    ensures a == b
  {
    assert |a| == |multiset(a)| == |multiset(b)| == |b|;
    if a != [] {
      SameHead(a, b, keys);
      AscendsTail(a, keys);
      AscendsTail(b, keys);
      AscendingUnique(a[1..], b[1..], keys);
      assert a == [a[0]] + a[1..] && b == [b[0]] + b[1..];
    }
  }

  /** The mainline order of a multiset of events is unique. */
  lemma MainlineOrderUnique(a: seq<EventId>, b: seq<EventId>, toOrder: multiset<EventId>,
                            resolved: Option<EventId>, store: EventStore)
    requires LinksAcyclic(store)
    requires IsMainlineOrder(a, toOrder, resolved, store) && IsMainlineOrder(b, toOrder, resolved, store)
    ensures a == b
  {
    var keys := map id | id in toOrder :: KeyFor(id, resolved, store);
    AscendsByKeyFor(a, toOrder, keys, resolved, store);
    AscendsByKeyFor(b, toOrder, keys, resolved, store);
    AscendingUnique(a, b, keys);
  }

  lemma AscendsByKeyFor(out: seq<EventId>, toOrder: multiset<EventId>, keys: map<EventId, MainKey>,
                        resolved: Option<EventId>, store: EventStore)
    requires LinksAcyclic(store)
    requires IsMainlineOrder(out, toOrder, resolved, store)
    requires forall id | id in toOrder :: id in keys && keys[id] == KeyFor(id, resolved, store)
    ensures Ascends(out, keys)
  {
    assert forall id | id in out :: id in multiset(out);
  }

  lemma MainlineOrderExists(toOrder: seq<EventId>, resolved: Option<EventId>, store: EventStore)
    requires LinksAcyclic(store)
    ensures exists out :: IsMainlineOrder(out, multiset(toOrder), resolved, store)
  {
    var keyed := seq(|toOrder|, i requires 0 <= i < |toOrder| => KeyFor(toOrder[i], resolved, store));
    assert Ids(keyed) == toOrder;
    KeyedSortIsOrder(keyed, toOrder, resolved, store);
  }

  lemma KeyedSortIsOrder(keyed: seq<MainKey>, toOrder: seq<EventId>, resolved: Option<EventId>, store: EventStore)
    requires LinksAcyclic(store)
    requires Ids(keyed) == toOrder
    requires forall key | key in keyed :: key == KeyFor(key.id, resolved, store)
    ensures IsMainlineOrder(Ids(Sort(keyed)), multiset(toOrder), resolved, store)
  {
    var sorted := Sort(keyed);
    forall i | 0 <= i < |sorted| ensures sorted[i] == KeyFor(Ids(sorted)[i], resolved, store) {
      assert sorted[i] in keyed;
    }
    var out := Ids(sorted);
    forall i, j | 0 <= i < j < |out|
      ensures !Before(KeyFor(out[j], resolved, store), KeyFor(out[i], resolved, store))
    {
      assert !Before(sorted[j], sorted[i]);
    }
  }

  /** The mainline order of a set of events. */
  ghost function OrderOf(toOrder: set<EventId>, resolved: Option<EventId>, store: EventStore): (out: seq<EventId>)
    requires LinksAcyclic(store)
    ensures IsMainlineOrder(out, multiset(toOrder), resolved, store)
  {
    AscendingIsArrangement(toOrder);
    MainlineOrderExists(Ascending(toOrder), resolved, store);
    var out :| IsMainlineOrder(out, multiset(toOrder), resolved, store);
    out
  }

  method MainlineOrdering(resolved: Option<EventId>, toOrder: seq<EventId>, store: EventStore) returns (out: seq<EventId>)
    requires LinksAcyclic(store)
    ensures IsMainlineOrder(out, multiset(toOrder), resolved, store)
  {
    var mainline := BuildMainline(resolved, store);
    MainlineDistinct(resolved, store);
    var index := BuildIndex(mainline);
    IndexUnique(index, MainlineIndex(resolved, store), mainline);

    var keyed: seq<MainKey> := [];
    for i := 0 to |toOrder|
      invariant |keyed| == i
      invariant forall j | 0 <= j < i :: keyed[j] == KeyFor(toOrder[j], resolved, store)
    {
      var id := toOrder[i];
      var depth := MainlineDepth(id, store, index);
      keyed := keyed + [MainKey(depth, if id in store then store[id].ts else 0, id)];
    }
    assert Ids(keyed) == toOrder;
    KeyedSortIsOrder(keyed, toOrder, resolved, store);
    out := Ids(Sort(keyed));
  }
}
