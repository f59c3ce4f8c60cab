/** Placement on a consistent-hash ring, for any assignment of virtual nodes to ring points. */
module RingPlacement {
  import opened Basics
  import opened ByteOrder
  import RingHash

  type ShardId = Bytes

  /** Virtual-node point to owning shard. */
  type Points = map<nat, ShardId>

  // ---------------------------------------------------------------- placement

  predicate IsLowest(p: nat, s: set<nat>) {
    p in s && forall q | q in s :: p <= q
  }

  lemma {:induction false} LowestExists(s: set<nat>)
    requires s != {}
    ensures exists p :: IsLowest(p, s)
  {
    var a :| a in s;
    if s == {a} {
      assert IsLowest(a, s);
    } else {
      LowestExists(s - {a});
      var b :| IsLowest(b, s - {a});
      var low := if a < b then a else b;
      assert forall q | q in s :: q == a || q in s - {a};
      assert IsLowest(low, s);
    }
  }

  function Lowest(s: set<nat>): (p: nat)
    requires s != {}
    ensures IsLowest(p, s)
  {
    LowestExists(s);
    var p :| p in s && IsLowest(p, s);
    p
  }

  function From(points: Points, start: nat): set<nat> {
    set p | p in points && start <= p
  }

  /** The owner of a point: the first virtual node at or after it, wrapping round. */
  function OwnerAt(points: Points, point: nat): Option<ShardId> {
    if From(points, point) != {} then Some(points[Lowest(From(points, point))])
    else if points.Keys != {} then Some(points[Lowest(points.Keys)])
    else None
  }

  /** The node that serves `point`, if there is one. */
  ghost predicate Serves(p: nat, points: Points, point: nat) {
    p in points && if From(points, point) != {} then IsLowest(p, From(points, point)) else IsLowest(p, points.Keys)
  }

  lemma ServedBy(points: Points, point: nat) returns (p: nat)
    requires points.Keys != {}
    ensures Serves(p, points, point) && OwnerAt(points, point) == Some(points[p])
  {
    p := if From(points, point) != {} then Lowest(From(points, point)) else Lowest(points.Keys);
  }

  lemma ServerUnique(p: nat, q: nat, points: Points, point: nat)
    requires Serves(p, points, point) && Serves(q, points, point)
    ensures p == q
  {
  }

  /** A node that serves a point in a larger ring serves it in any smaller ring that still has it. */
  lemma ServesInSubring(p: nat, small: Points, large: Points, point: nat)
    requires small.Keys <= large.Keys
    requires Serves(p, large, point) && p in small
    ensures Serves(p, small, point)
  {
    assert From(small, point) <= From(large, point);
    if From(large, point) != {} {
      assert p in From(small, point);
    } else {
      assert From(small, point) == {};
    }
  }

  /** How far `to` lies clockwise from `from` on a ring of 2^64 points. */
  function Clockwise(from: nat, to: nat): int {
    if from <= to then to - from else to + 0x1_0000_0000_0000_0000 - from
  }

  ghost predicate Nearest(p: nat, points: Points, point: nat) {
    p in points && forall q | q in points :: Clockwise(point, p) <= Clockwise(point, q)
  }

  lemma ServedByNearest(points: Points, point: nat) returns (p: nat)
    requires point < TWO_64 && forall n | n in points :: n < TWO_64
    requires points.Keys != {}
    ensures p in points && OwnerAt(points, point) == Some(points[p])
    ensures forall q | q in points :: p == q || Clockwise(point, p) < Clockwise(point, q)
  {
    p := ServedBy(points, point);
    forall q | q in points ensures p == q || Clockwise(point, p) < Clockwise(point, q) {
      NearerClockwise(p, q, points, point);
    }
  }

  /** A point is owned by the shard of the node nearest to it clockwise; a ring with nodes has one. */
  lemma OwnerIsNearest(points: Points, point: nat, p: nat)
    requires point < TWO_64 && forall n | n in points :: n < TWO_64
    ensures Nearest(p, points, point) ==> OwnerAt(points, point) == Some(points[p])
    ensures OwnerAt(points, point) == None || exists n :: Nearest(n, points, point)
  {
    if points.Keys != {} {
      var n := ServedByNearest(points, point);
      assert Nearest(n, points, point);
    }
  }

  lemma NearerClockwise(p: nat, q: nat, points: Points, point: nat)
    requires point < TWO_64 && forall n | n in points :: n < TWO_64
    requires Serves(p, points, point) && q in points
    ensures p == q || Clockwise(point, p) < Clockwise(point, q)
  {
    if From(points, point) != {} {
      assert p in From(points, point);
      assert point <= q ==> q in From(points, point);
    } else {
      assert q !in From(points, point);
      assert p !in From(points, point);
    }
  }

  // ---------------------------------------------------------------- adding and removing

  /** Where a shard's virtual nodes land. */
  type NodeHash = (ShardId, nat) -> nat

  /** The ring points of a shard's first `n` virtual nodes. */
  function NodesUpTo(shard: ShardId, n: nat, hash: NodeHash): set<nat> {
    if n == 0 then {} else NodesUpTo(shard, n - 1, hash) + {hash(shard, n - 1)}
  }

  function Nodes(shard: ShardId, hash: NodeHash): set<nat> {
    NodesUpTo(shard, RingHash.VIRTUAL_NODES, hash)
  }

  ghost predicate DistinctNodes(shard: ShardId, hash: NodeHash) {
    forall a: nat, b: nat | a < b < RingHash.VIRTUAL_NODES :: hash(shard, a) != hash(shard, b)
  }

  lemma {:induction false} NodesMembers(shard: ShardId, n: nat, hash: NodeHash)
    ensures forall p :: p in NodesUpTo(shard, n, hash) <==> exists v: nat :: v < n && hash(shard, v) == p
  {
    if n > 0 {
      NodesMembers(shard, n - 1, hash);
    }
  }

  /** Distinct virtual nodes occupy as many ring points as there are of them. */
  lemma {:induction false} NodeCount(shard: ShardId, n: nat, hash: NodeHash)
    requires n <= RingHash.VIRTUAL_NODES && DistinctNodes(shard, hash)
    ensures |NodesUpTo(shard, n, hash)| == n
  {
    if n > 0 {
      NodeCount(shard, n - 1, hash);
      NodesMembers(shard, n - 1, hash);
    }
  }

  /** The ring and the shards on it. */
  datatype State = State(points: Points, shards: set<ShardId>)

  const EMPTY := State(map[], {})

  function Placed(points: Points, nodes: set<nat>, shard: ShardId): Points {
    map p | p in points.Keys + nodes :: if p in nodes then shard else points[p]
  }

  function Without(points: Points, shard: ShardId): Points {
    map p | p in points && points[p] != shard :: points[p]
  }

  function Added(s: State, shard: ShardId, hash: NodeHash): State {
    if shard in s.shards then s else State(Placed(s.points, Nodes(shard, hash), shard), s.shards + {shard})
  }

  function Removed(s: State, shard: ShardId): State {
    if shard in s.shards then State(Without(s.points, shard), s.shards - {shard}) else s
  }

  /** Adding a shard moves rooms only onto it. */
  lemma AddMovesOnlyOnto(s: State, shard: ShardId, point: nat, hash: NodeHash)
    ensures var before, after := OwnerAt(s.points, point), OwnerAt(Added(s, shard, hash).points, point);
            after == before || after == Some(shard)
  {
    if shard !in s.shards {
      var points := Added(s, shard, hash).points;
      if points.Keys != {} {
        var p := ServedBy(points, point);
        if p !in Nodes(shard, hash) {
          ServesInSubring(p, s.points, points, point);
          var q := ServedBy(s.points, point);
          ServerUnique(p, q, s.points, point);
        }
      }
    }
  }

  /** Removing a shard moves only the rooms it owned, and leaves it none. */
  lemma RemoveMovesOnlyFrom(s: State, shard: ShardId, point: nat)
    requires shard in s.shards
    ensures var before, after := OwnerAt(s.points, point), OwnerAt(Removed(s, shard).points, point);
            && (before != Some(shard) ==> after == before)
            && after != Some(shard)
  {
    var points := Removed(s, shard).points;
    if points.Keys != {} {
      var q := ServedBy(points, point);
    }
    if s.points.Keys != {} {
      var p := ServedBy(s.points, point);
      if s.points[p] != shard {
        ServesInSubring(p, points, s.points, point);
        var q := ServedBy(points, point);
        ServerUnique(p, q, points, point);
      }
    }
  }

  // ---------------------------------------------------------------- runs

  datatype Op = Add(shard: ShardId) | Remove(shard: ShardId)

  function Apply(s: State, op: Op, hash: NodeHash): State {
    match op
    case Add(shard) => Added(s, shard, hash)
    case Remove(shard) => Removed(s, shard)
  }

  function Run(ops: seq<Op>, hash: NodeHash): State {
    if ops == [] then EMPTY else Apply(Run(ops[..|ops| - 1], hash), ops[|ops| - 1], hash)
  }

  ghost predicate Over(ops: seq<Op>, universe: set<ShardId>) {
    forall op | op in ops :: op.shard in universe
  }

  /** Virtual nodes of different shards never coincide. */
  ghost predicate NoCollisions(universe: set<ShardId>, hash: NodeHash) {
    forall a, b | a in universe && b in universe && a != b :: Nodes(a, hash) !! Nodes(b, hash)
  }

  /** Every node of every shard is on the ring under its own shard, and nothing else is. */
  ghost predicate Canonical(s: State, hash: NodeHash) {
    && (forall shard, p | shard in s.shards && p in Nodes(shard, hash) :: p in s.points && s.points[p] == shard)
    && (forall p | p in s.points :: s.points[p] in s.shards && p in Nodes(s.points[p], hash))
  }

  lemma {:induction false} RunCanonical(ops: seq<Op>, universe: set<ShardId>, hash: NodeHash)
    requires Over(ops, universe) && NoCollisions(universe, hash)
    ensures Canonical(Run(ops, hash), hash) && Run(ops, hash).shards <= universe
  {
    if ops != [] {
      var n := |ops| - 1;
      RunCanonical(ops[..n], universe, hash);
      assert ops[n] in ops;
      ApplyCanonical(Run(ops[..n], hash), ops[n], universe, hash);
    }
  }

  lemma ApplyCanonical(s: State, op: Op, universe: set<ShardId>, hash: NodeHash)
    requires Canonical(s, hash) && s.shards <= universe
    requires op.shard in universe && NoCollisions(universe, hash)
    ensures Canonical(Apply(s, op, hash), hash) && Apply(s, op, hash).shards <= universe
  {
    var shard := op.shard;
    assert forall other | other in s.shards && other != shard :: Nodes(other, hash) !! Nodes(shard, hash);
  }

  lemma CanonicalUnique(s: State, t: State, hash: NodeHash)
    requires Canonical(s, hash) && Canonical(t, hash) && s.shards == t.shards
    ensures s.points == t.points
  {
    forall p ensures p in s.points <==> p in t.points {
      if p in s.points {
        assert p in Nodes(s.points[p], hash);
      }
      if p in t.points {
        assert p in Nodes(t.points[p], hash);
      }
    }
    forall p | p in s.points ensures s.points[p] == t.points[p] {
      assert p in Nodes(s.points[p], hash);
    }
  }

  /** Runs that end with the same shards end with the same ring. */
  ghost predicate Determined(universe: set<ShardId>, hash: NodeHash) {
    forall a, b | Over(a, universe) && Over(b, universe) && Run(a, hash).shards == Run(b, hash).shards :: Run(a, hash) == Run(b, hash)
  }

  /** Two shards added in either order own what they share in turn. */
  lemma DeterminedSeparates(a: ShardId, b: ShardId, universe: set<ShardId>, hash: NodeHash)
    requires Determined(universe, hash) && a in universe && b in universe && a != b
    ensures Nodes(a, hash) !! Nodes(b, hash)
  {
    var ab, ba := [Add(a), Add(b)], [Add(b), Add(a)];
    RunTwo(a, b, hash);
    RunTwo(b, a, hash);
    assert Over(ab, universe) && Over(ba, universe);
    assert Run(ab, hash) == Run(ba, hash);
  }

  /** The ring is determined by its shards, whatever the calls that led there, exactly when virtual
      nodes of different shards never collide. */
  lemma DeterminedIffNoCollisions(universe: set<ShardId>, hash: NodeHash)
    ensures Determined(universe, hash) <==> NoCollisions(universe, hash)
  {
    if NoCollisions(universe, hash) {
      forall a, b | Over(a, universe) && Over(b, universe) && Run(a, hash).shards == Run(b, hash).shards ensures Run(a, hash) == Run(b, hash) {
        RunCanonical(a, universe, hash);
        RunCanonical(b, universe, hash);
        CanonicalUnique(Run(a, hash), Run(b, hash), hash);
      }
    }
    if Determined(universe, hash) {
      forall a, b | a in universe && b in universe && a != b ensures Nodes(a, hash) !! Nodes(b, hash) {
        DeterminedSeparates(a, b, universe, hash);
      }
    }
  }

  lemma RunTwo(a: ShardId, b: ShardId, hash: NodeHash)
    requires a != b
    ensures Run([Add(a), Add(b)], hash).shards == {a, b}
    ensures forall p | p in Nodes(b, hash) :: p in Run([Add(a), Add(b)], hash).points && Run([Add(a), Add(b)], hash).points[p] == b
    ensures forall p | p in Nodes(a, hash) && p !in Nodes(b, hash) :: p in Run([Add(a), Add(b)], hash).points && Run([Add(a), Add(b)], hash).points[p] == a
  {
    var ops := [Add(a), Add(b)];
    assert ops[..1] == [Add(a)] && ops[..1][..0] == [];
    assert Run([Add(a)], hash) == Added(EMPTY, a, hash);
    assert Run(ops, hash) == Added(Added(EMPTY, a, hash), b, hash);
  }

  /** Adding a shard and draining it again restores every placement. */
  lemma AddThenRemoveRestores(ops: seq<Op>, shard: ShardId, universe: set<ShardId>, hash: NodeHash)
    requires Over(ops, universe) && shard in universe && NoCollisions(universe, hash)
    requires shard !in Run(ops, hash).shards
    ensures Removed(Added(Run(ops, hash), shard, hash), shard) == Run(ops, hash)
  {
    RunCanonical(ops, universe, hash);
    ApplyCanonical(Run(ops, hash), Add(shard), universe, hash);
    ApplyCanonical(Added(Run(ops, hash), shard, hash), Remove(shard), universe, hash);
    CanonicalUnique(Removed(Added(Run(ops, hash), shard, hash), shard), Run(ops, hash), hash);
  }

  // ---------------------------------------------------------------- every room has an owner

  /** Every ring point is owned by a current shard, and is one of its nodes. */
  ghost predicate OwnedByMembers(s: State, hash: NodeHash) {
    forall p | p in s.points :: s.points[p] in s.shards && p in Nodes(s.points[p], hash)
  }

  lemma {:induction false} RunOwnedByMembers(ops: seq<Op>, hash: NodeHash)
    ensures OwnedByMembers(Run(ops, hash), hash)
  {
    if ops != [] {
      RunOwnedByMembers(ops[..|ops| - 1], hash);
    }
  }

  /** An owner is always a current shard, collisions or not. */
  lemma PlacedOnMember(ops: seq<Op>, point: nat, hash: NodeHash)
    ensures var owner := OwnerAt(Run(ops, hash).points, point);
            owner.Some? ==> owner.value in Run(ops, hash).shards
  {
    RunOwnedByMembers(ops, hash);
    if Run(ops, hash).points.Keys != {} {
      var p := ServedBy(Run(ops, hash).points, point);
    }
  }

  /** `p` is a node of `shard` and of no other shard of the universe. */
  ghost predicate OwnNode(p: nat, shard: ShardId, universe: set<ShardId>, hash: NodeHash) {
    p in Nodes(shard, hash) && forall other | other in universe && other != shard :: p !in Nodes(other, hash)
  }

  ghost predicate AllHaveOwnNodes(universe: set<ShardId>, hash: NodeHash) {
    forall shard | shard in universe :: exists p :: OwnNode(p, shard, universe, hash)
  }

  /** After every run, rooms have an owner as soon as there is a shard. */
  ghost predicate AlwaysPlaced(universe: set<ShardId>, hash: NodeHash) {
    forall ops, point | Over(ops, universe) :: Placeable(Run(ops, hash), point)
  }

  ghost predicate Placeable(s: State, point: nat) {
    OwnerAt(s.points, point).Some? <==> s.shards != {}
  }

  /** A shard keeps a node of its own for as long as it is on the ring. */
  lemma {:induction false} OwnNodeStays(ops: seq<Op>, shard: ShardId, p: nat, universe: set<ShardId>, hash: NodeHash)
    requires Over(ops, universe) && OwnNode(p, shard, universe, hash)
    ensures shard in Run(ops, hash).shards ==> p in Run(ops, hash).points && Run(ops, hash).points[p] == shard
  {
    if ops != [] {
      var n := |ops| - 1;
      OwnNodeStays(ops[..n], shard, p, universe, hash);
      assert ops[n] in ops;
    }
  }

  lemma {:induction false} RunMembers(ops: seq<Op>, universe: set<ShardId>, hash: NodeHash)
    requires Over(ops, universe)
    ensures Run(ops, hash).shards <= universe
  {
    if ops != [] {
      RunMembers(ops[..|ops| - 1], universe, hash);
      assert ops[|ops| - 1] in ops;
    }
  }

  lemma OwnNodesPlace(ops: seq<Op>, point: nat, universe: set<ShardId>, hash: NodeHash)
    requires Over(ops, universe) && AllHaveOwnNodes(universe, hash)
    ensures Placeable(Run(ops, hash), point)
  {
    var s := Run(ops, hash);
    RunOwnedByMembers(ops, hash);
    if s.shards != {} {
      var shard :| shard in s.shards;
      RunMembers(ops, universe, hash);
      var p :| OwnNode(p, shard, universe, hash);
      OwnNodeStays(ops, shard, p, universe, hash);
    }
    if s.points.Keys != {} {
      var p := ServedBy(s.points, point);
    }
  }

  lemma RunNext(ops: seq<Op>, op: Op, hash: NodeHash)
    ensures Run(ops + [op], hash) == Apply(Run(ops, hash), op, hash)
  {
    assert (ops + [op])[..|ops|] == ops;
  }

  /** `shard` holds no point that is a node of one of `others`. */
  ghost predicate Shadowed(s: State, shard: ShardId, others: set<ShardId>, hash: NodeHash) {
    forall p, other | p in s.points && other in others && p in Nodes(other, hash) :: s.points[p] != shard
  }

  /** Add `shard`, then the others on top of it. */
  lemma {:induction false} ShadowingRun(shard: ShardId, others: set<ShardId>, hash: NodeHash) returns (ops: seq<Op>)
    requires shard !in others
    ensures Over(ops, others + {shard})
    ensures Run(ops, hash).shards == others + {shard}
    ensures Shadowed(Run(ops, hash), shard, others, hash)
  {
    if others == {} {
      ops := [Add(shard)];
      RunNext([], Add(shard), hash);
      assert [] + [Add(shard)] == ops;
    } else {
      var other :| other in others;
      ops := ShadowingRun(shard, others - {other}, hash);
      RunNext(ops, Add(other), hash);
      ops := ops + [Add(other)];
    }
  }

  /** Drain the others again. */
  lemma {:induction false} DrainingRun(before: seq<Op>, others: set<ShardId>, universe: set<ShardId>, hash: NodeHash)
    returns (ops: seq<Op>)
    requires Over(before, universe) && others <= universe && others <= Run(before, hash).shards
    ensures Over(ops, universe)
    ensures Run(ops, hash).shards == Run(before, hash).shards - others
    ensures Drained(Run(before, hash).points, Run(ops, hash).points, others)
    decreases others
  {
    if others == {} {
      ops := before;
    } else {
      var other :| other in others;
      ops := DrainingRun(before, others - {other}, universe, hash);
      RunNext(ops, Remove(other), hash);
      ops := ops + [Remove(other)];
    }
  }

  /** What is left is the points of the shards that were not drained. */
  ghost predicate Drained(before: Points, after: Points, others: set<ShardId>) {
    forall p | p in after :: p in before && after[p] == before[p] && before[p] !in others
  }

  /** A shard without a node of its own can be left on the ring with no point at all. */
  lemma CanBeEmptied(shard: ShardId, universe: set<ShardId>, hash: NodeHash) returns (ops: seq<Op>)
    requires shard in universe && forall p :: !OwnNode(p, shard, universe, hash)
    ensures Over(ops, universe)
    ensures Run(ops, hash).shards == {shard} && Run(ops, hash).points == map[]
  {
    var others := universe - {shard};
    var before := ShadowingRun(shard, others, hash);
    assert others + {shard} == universe;
    ops := DrainingRun(before, others, universe, hash);
    RunOwnedByMembers(ops, hash);
    forall p ensures p !in Run(ops, hash).points {
      assert !OwnNode(p, shard, universe, hash);
    }
  }

  /** Rooms always have an owner when there is a shard, exactly when every shard has a virtual node
      that it shares with no other. */
  lemma AlwaysPlacedIff(universe: set<ShardId>, hash: NodeHash)
    ensures AlwaysPlaced(universe, hash) <==> AllHaveOwnNodes(universe, hash)
  {
    if AllHaveOwnNodes(universe, hash) {
      forall ops, point | Over(ops, universe) ensures Placeable(Run(ops, hash), point) {
        OwnNodesPlace(ops, point, universe, hash);
      }
    } else {
      var shard :| shard in universe && forall p :: !OwnNode(p, shard, universe, hash);
      var ops := CanBeEmptied(shard, universe, hash);
      assert !Placeable(Run(ops, hash), 0);
    }
  }

  /** Without collisions every shard has a node of its own. */
  lemma NoCollisionsOwnNodes(universe: set<ShardId>, hash: NodeHash)
    requires NoCollisions(universe, hash)
    ensures AllHaveOwnNodes(universe, hash)
  {
    forall shard | shard in universe ensures exists p :: OwnNode(p, shard, universe, hash) {
      FirstNode(shard, hash);
      assert OwnNode(hash(shard, 0), shard, universe, hash);
    }
  }

  lemma FirstNode(shard: ShardId, hash: NodeHash)
    ensures hash(shard, 0) in Nodes(shard, hash)
  {
    NodesMembers(shard, RingHash.VIRTUAL_NODES, hash);
  }

  // ---------------------------------------------------------------- reassignments

  /** Where a room looks for its owner. */
  type RoomHash = Bytes -> nat

  datatype Reassignment = Reassignment(room: Bytes, from: ShardId, to: ShardId)

  function Moved(room: Bytes, from: Option<ShardId>, to: Option<ShardId>): seq<Reassignment> {
    if from.Some? && to.Some? && from != to then [Reassignment(room, from.value, to.value)] else []
  }

  /** The move of one room between two rings, if it has one. */
  function MoveOf(before: Points, after: Points, locate: RoomHash): Bytes -> seq<Reassignment> {
    (room: Bytes) => Moved(room, OwnerAt(before, locate(room)), OwnerAt(after, locate(room)))
  }

  /** The moves from one placement to another, room by room. */
  function Moves(before: Points, after: Points, rooms: seq<Bytes>, locate: RoomHash): seq<Reassignment> {
    FlatMap(rooms, MoveOf(before, after, locate))
  }

  ghost predicate IsMove(m: Reassignment, before: Points, after: Points, locate: RoomHash) {
    && m.from != m.to
    && OwnerAt(before, locate(m.room)) == Some(m.from)
    && OwnerAt(after, locate(m.room)) == Some(m.to)
  }

  lemma MoveOfMembers(before: Points, after: Points, room: Bytes, locate: RoomHash, m: Reassignment)
    ensures m in MoveOf(before, after, locate)(room) <==> room == m.room && IsMove(m, before, after, locate)
  {
    assert MoveOf(before, after, locate)(room) == Moved(room, OwnerAt(before, locate(room)), OwnerAt(after, locate(room)));
  }

  /** Exactly the rooms whose owner changes are listed, each with its two owners. */
  lemma MovesAreTheChanges(before: Points, after: Points, rooms: seq<Bytes>, locate: RoomHash, m: Reassignment)
    ensures m in Moves(before, after, rooms, locate) <==> m.room in rooms && IsMove(m, before, after, locate)
  {
    var f := MoveOf(before, after, locate);
    FlatMapMembers(rooms, f, m);
    forall room ensures m in f(room) <==> room == m.room && IsMove(m, before, after, locate) {
      MoveOfMembers(before, after, room, locate, m);
    }
  }

  /** Reassignments for an added shard all lead to it; those for a drained shard all come from it. */
  lemma ReassignmentsTouchOnly(s: State, shard: ShardId, rooms: seq<Bytes>, hash: NodeHash, locate: RoomHash, m: Reassignment)
    ensures m in Moves(s.points, Added(s, shard, hash).points, rooms, locate) ==> m.to == shard
    ensures m in Moves(s.points, Removed(s, shard).points, rooms, locate) ==> m.from == shard
  {
    MovesAreTheChanges(s.points, Added(s, shard, hash).points, rooms, locate, m);
    MovesAreTheChanges(s.points, Removed(s, shard).points, rooms, locate, m);
    AddMovesOnlyOnto(s, shard, locate(m.room), hash);
    if shard in s.shards {
      RemoveMovesOnlyFrom(s, shard, locate(m.room));
    }
  }
}
