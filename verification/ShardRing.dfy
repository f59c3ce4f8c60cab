/** The shard ring: rooms hashed onto shards through their virtual nodes. */
module ShardRing {
  import opened Basics
  import opened ByteOrder
  import opened RingPlacement
  import RingHash

  const NODE_HASH: NodeHash := (shard: ShardId, vnode: nat) => RingHash.VirtualNodeHash(shard, vnode)

  const ROOM_HASH: RoomHash := (room: Bytes) => RingHash.Hash(room)

  lemma NodeHashIs(shard: ShardId, vnode: nat)
    ensures NODE_HASH(shard, vnode) == RingHash.VirtualNodeHash(shard, vnode)
  {
  }

  lemma MoveOfRoom(before: Points, after: Points, room: Bytes)
    ensures MoveOf(before, after, ROOM_HASH)(room) ==
            Moved(room, OwnerAt(before, RingHash.Hash(room)), OwnerAt(after, RingHash.Hash(room)))
  {
  }

  lemma ReassignmentsAreExact(before: Points, after: Points, rooms: seq<Bytes>)
    ensures forall m :: m in Moves(before, after, rooms, ROOM_HASH) <==> m.room in rooms && IsMove(m, before, after, ROOM_HASH)
  {
    forall m ensures m in Moves(before, after, rooms, ROOM_HASH) <==> m.room in rooms && IsMove(m, before, after, ROOM_HASH) {
      MovesAreTheChanges(before, after, rooms, ROOM_HASH, m);
    }
  }

  lemma NodesAreDistinct(shard: ShardId)
    ensures DistinctNodes(shard, NODE_HASH)
  {
    forall a: nat, b: nat | a < b < RingHash.VIRTUAL_NODES ensures NODE_HASH(shard, a) != NODE_HASH(shard, b) {
      RingHash.VirtualNodesDistinct(shard, a, b);
      NodeHashIs(shard, a);
      NodeHashIs(shard, b);
    }
  }

  /** The 128 virtual nodes of any shard land on 128 distinct ring points. */
  lemma ShardHasAllItsNodes(shard: ShardId, n: nat)
    requires n == RingHash.VIRTUAL_NODES
    ensures n == 128 && |NodesUpTo(shard, n, NODE_HASH)| == n
  {
    NodesAreDistinct(shard);
    NodeCount(shard, n, NODE_HASH);
  }

  // ---------------------------------------------------------------- collisions under the real hash

  /** The name of `k` zero bytes. */
  function Zeros(k: nat): ShardId {
    seq(k, i => 0)
  }

  /** The all-zero names shorter than `n`. */
  ghost function Names(n: nat): set<ShardId> {
    set k | 0 <= k < n :: Zeros(k)
  }

  lemma NamesDistinct(n: nat, i: nat, j: nat)
    requires i < j < n
    ensures Zeros(i) in Names(n) && Zeros(j) in Names(n) && Zeros(i) != Zeros(j)
  {
    assert |Zeros(i)| == i && |Zeros(j)| == j;
  }

  lemma NodesAreWords(shard: ShardId, p: nat)
    requires p in Nodes(shard, NODE_HASH)
    ensures p < TWO_64
  {
    NodesMembers(shard, RingHash.VIRTUAL_NODES, NODE_HASH);
    var v: nat :| v < RingHash.VIRTUAL_NODES && NODE_HASH(shard, v) == p;
    NodeHashIs(shard, v);
  }

  /** Under the server's own hash the order of calls can matter: rings over enough shards are not
      determined by their shards. */
  lemma CallOrderMatters(n: nat)
    requires n > TWO_64
    ensures !Determined(Names(n), NODE_HASH)
  {
    var points := seq(n, k requires 0 <= k < n => NODE_HASH(Zeros(k), 0));
    forall k | 0 <= k < n ensures points[k] in Nodes(Zeros(k), NODE_HASH) && points[k] < TWO_64 {
      FirstNode(Zeros(k), NODE_HASH);
      NodesAreWords(Zeros(k), points[k]);
    }
    var i, j := Pigeonhole(points, TWO_64);
    NamesDistinct(n, i, j);
    assert points[i] in Nodes(Zeros(i), NODE_HASH) && points[i] in Nodes(Zeros(j), NODE_HASH);
    DeterminedIffNoCollisions(Names(n), NODE_HASH);
  }

  /** No more than 2^64 shards can each have a ring point of its own. */
  lemma OwnNodesFit(n: nat)
    requires AllHaveOwnNodes(Names(n), NODE_HASH)
    ensures n <= TWO_64
  {
    var points := OwnPoints(n);
    forall k | 0 <= k < n ensures points[k] < TWO_64 {
      NodesAreWords(Zeros(k), points[k]);
    }
    forall i, j | 0 <= i < j < n ensures points[i] != points[j] {
      NamesDistinct(n, i, j);
      assert OwnNode(points[i], Zeros(i), Names(n), NODE_HASH) && points[j] in Nodes(Zeros(j), NODE_HASH);
    }
    DistinctFits(points, TWO_64);
  }

  /** Under the server's own hash some run leaves a shard on the ring and no room placed. */
  lemma PlacementCanFail(n: nat)
    requires n > TWO_64
    ensures !AlwaysPlaced(Names(n), NODE_HASH)
  {
    AlwaysPlacedIff(Names(n), NODE_HASH);
    if AllHaveOwnNodes(Names(n), NODE_HASH) {
      OwnNodesFit(n);
    }
  }

  lemma OwnPoints(n: nat) returns (points: seq<nat>)
    requires AllHaveOwnNodes(Names(n), NODE_HASH)
    ensures |points| == n
    ensures forall k | 0 <= k < n :: OwnNode(points[k], Zeros(k), Names(n), NODE_HASH)
  {
    points := seq(n, k requires 0 <= k < n => OwnPoint(k, n));
  }

  ghost function OwnPoint(k: nat, n: nat): (p: nat)
    requires k < n && AllHaveOwnNodes(Names(n), NODE_HASH)
    ensures OwnNode(p, Zeros(k), Names(n), NODE_HASH)
  {
    assert Zeros(k) in Names(n);
    var p :| OwnNode(p, Zeros(k), Names(n), NODE_HASH);
    p
  }

  /** On the server's own ring, after any calls, a room is on the shard of the virtual node nearest to
      its hash clockwise. */
  lemma RoomsOnNearestNode(ops: seq<Op>, room: Bytes, p: nat)
    requires Nearest(p, Run(ops, NODE_HASH).points, RingHash.Hash(room))
    ensures OwnerAt(Run(ops, NODE_HASH).points, RingHash.Hash(room)) == Some(Run(ops, NODE_HASH).points[p])
  {
    var s := Run(ops, NODE_HASH);
    RunOwnedByMembers(ops, NODE_HASH);
    forall q | q in s.points ensures q < TWO_64 {
      NodesAreWords(s.points[q], q);
    }
    OwnerIsNearest(s.points, RingHash.Hash(room), p);
  }

  // ---------------------------------------------------------------- the ring

  class Ring {
    var ring: Points
    var shards: set<ShardId>

    ghost function Value(): State
      reads this
    {
      State(ring, shards)
    }

    constructor ()
      ensures Value() == EMPTY
    {
      ring, shards := map[], {};
    }

    method AddShard(shard: ShardId)
      modifies this
      ensures Value() == Added(old(Value()), shard, NODE_HASH)
    {
      if shard in shards {
        return;
      }
      shards := shards + {shard};
      ring := PlaceNodes(ring, shard, NODE_HASH);
    }

    method RemoveShard(shard: ShardId)
      modifies this
      ensures Value() == Removed(old(Value()), shard)
    {
      if shard !in shards {
        return;
      }
      shards := shards - {shard};
      ring := map p | p in ring && ring[p] != shard :: ring[p];
    }

    method ShardFor(room: Bytes) returns (shard: Option<ShardId>)
      ensures shard == OwnerAt(ring, RingHash.Hash(room))
    {
      var point := RingHash.ComputeHash(room);
      var at := From(ring, point);
      if at != {} {
        shard := Some(ring[Lowest(at)]);
      } else if ring.Keys != {} {
        shard := Some(ring[Lowest(ring.Keys)]);
      } else {
        shard := None;
      }
    }

    /** The move of one room, when both rings place it and on different shards. */
    method Reassign(target: Ring, room: Bytes) returns (move: seq<Reassignment>)
      ensures move == MoveOf(ring, target.ring, ROOM_HASH)(room)
    {
      MoveOfRoom(ring, target.ring, room);
      move := [];
      var from := ShardFor(room);
      if from.Some? {
        var to := target.ShardFor(room);
        if to.Some? && from != to {
          move := [Reassignment(room, from.value, to.value)];
        }
      }
    }

    /** The work to do before `target` takes over: exactly the given rooms that both rings place, on
        different shards, each with its two owners, in the order given. */
    method Reassignments(target: Ring, rooms: seq<Bytes>) returns (moves: seq<Reassignment>)
      ensures forall m :: m in moves <==> m.room in rooms && IsMove(m, ring, target.ring, ROOM_HASH)
      ensures moves == Moves(ring, target.ring, rooms, ROOM_HASH)
    {
      moves := [];
      ghost var move := MoveOf(ring, target.ring, ROOM_HASH);
      for i := 0 to |rooms|
        invariant moves == FlatMap(rooms[..i], move)
      {
        var found := Reassign(target, rooms[i]);
        FlatMapPrefix(rooms, i, move);
        moves := moves + found;
      }
      assert rooms[..|rooms|] == rooms;
      ReassignmentsAreExact(ring, target.ring, rooms);
    }
  }

  method PlaceNodes(before: Points, shard: ShardId, hash: NodeHash) returns (ring: Points)
    ensures ring == Placed(before, Nodes(shard, hash), shard)
  {
    ring := before;
    for vnode := 0 to RingHash.VIRTUAL_NODES
      invariant ring == Placed(before, NodesUpTo(shard, vnode, hash), shard)
    {
      ring := ring[hash(shard, vnode) := shard];
    }
  }
}
