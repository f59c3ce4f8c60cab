/** The space hierarchy: a queue-driven traversal with a depth budget, served in resumable pages. */
module SpaceHierarchy {
  import opened Basics

  datatype Room = Room(id: string)

  datatype Child = Child(room: Room, suggested: bool)

  /** A room's summary; one with a custom join rule cannot be serialized. */
  datatype Summary = Summary(children: seq<Child>, customJoinRule: bool)

  /** What the summary service answers during one traversal: the rooms accessible to the user. A room
      outside `summaries` is inaccessible, not found or in error. */
  datatype Hierarchy = Hierarchy(root: Room, summaries: map<Room, Summary>, suggestedOnly: bool, maxDepth: nat)

  /** A queued room and the depth at which it was found. */
  datatype Item = Item(room: Room, depth: nat)

  function ListedRooms(children: seq<Child>, suggestedOnly: bool): seq<Room> {
    if children == [] then []
    else
      var rest := ListedRooms(children[1..], suggestedOnly);
      if children[0].suggested || !suggestedOnly then [children[0].room] + rest else rest
  }

  function ChildRooms(room: Room, h: Hierarchy): seq<Room>
    requires room in h.summaries
  {
    ListedRooms(h.summaries[room].children, h.suggestedOnly)
  }

  /** A room is listed exactly when some child entry names it, one that is suggested whenever only
      suggested children are wanted. */
  lemma {:induction false} ListedIff(children: seq<Child>, suggestedOnly: bool, room: Room)
    ensures room in ListedRooms(children, suggestedOnly) <==>
            exists c :: c in children && c.room == room && (suggestedOnly ==> c.suggested)
  {
    if children != [] {
      ListedIff(children[1..], suggestedOnly, room);
      assert children == [children[0]] + children[1..];
    }
  }

  /** Rooms are listed in the order of the entries. */
  lemma {:induction false} ListedInOrder(a: seq<Child>, b: seq<Child>, suggestedOnly: bool)
    ensures ListedRooms(a + b, suggestedOnly) == ListedRooms(a, suggestedOnly) + ListedRooms(b, suggestedOnly)
  {
    if a == [] {
      assert a + b == b;
    } else {
      ListedInOrder(a[1..], b, suggestedOnly);
      assert (a + b)[0] == a[0] && (a + b)[1..] == a[1..] + b;
      var head := ListedHead(a, suggestedOnly);
      var head' := ListedHead(a + b, suggestedOnly);
      ConcatAssociative(head, ListedRooms(a[1..], suggestedOnly), ListedRooms(b, suggestedOnly));
    }
  }

  lemma ListedHead(children: seq<Child>, suggestedOnly: bool) returns (head: seq<Room>)
    requires children != []
    ensures head == if children[0].suggested || !suggestedOnly then [children[0].room] else []
    ensures ListedRooms(children, suggestedOnly) == head + ListedRooms(children[1..], suggestedOnly)
  {
    head := if children[0].suggested || !suggestedOnly then [children[0].room] else [];
    assert [] + ListedRooms(children[1..], suggestedOnly) == ListedRooms(children[1..], suggestedOnly);
  }

  lemma ChildrenInGraph(room: Room, h: Hierarchy)
    requires room in h.summaries
    ensures GraphOf(h)[room] == set child | child in ChildRooms(room, h) && child in h.summaries
  {
    forall child ensures child in GraphOf(h)[room] <==> child in ChildRooms(room, h) && child in h.summaries {
      ListedIff(h.summaries[room].children, h.suggestedOnly, child);
    }
  }

  /** Queue entries for the rooms not yet visited. */
  function Enqueue(rooms: seq<Room>, depth: nat, visited: set<Room>): seq<Item> {
    if rooms == [] then []
    else (if rooms[0] in visited then [] else [Item(rooms[0], depth)]) + Enqueue(rooms[1..], depth, visited)
  }

  /** Entries are queued in the order of the rooms. */
  lemma {:induction false} EnqueueInOrder(a: seq<Room>, b: seq<Room>, depth: nat, visited: set<Room>)
    ensures Enqueue(a + b, depth, visited) == Enqueue(a, depth, visited) + Enqueue(b, depth, visited)
  {
    if a == [] {
      assert a + b == b;
    } else {
      EnqueueInOrder(a[1..], b, depth, visited);
      assert (a + b)[0] == a[0] && (a + b)[1..] == a[1..] + b;
      var head := if a[0] in visited then [] else [Item(a[0], depth)];
      ConcatAssociative(head, Enqueue(a[1..], depth, visited), Enqueue(b, depth, visited));
    }
  }

  lemma {:induction false} EnqueueItems(rooms: seq<Room>, depth: nat, visited: set<Room>)
    ensures forall item :: item in Enqueue(rooms, depth, visited) <==>
                           item.depth == depth && item.room in rooms && item.room !in visited
  {
    if rooms != [] {
      EnqueueItems(rooms[1..], depth, visited);
      assert rooms == [rooms[0]] + rooms[1..];
    }
  }

  // ---------------------------------------------------------------- the traversal

  /** The rooms emitted from a queue, in order. */
  function Walk(queue: seq<Item>, visited: set<Room>, h: Hierarchy): seq<Room>
    decreases h.summaries.Keys - visited, |queue|
  {
    if queue == [] then []
    else if queue[0].room in visited || queue[0].room !in h.summaries then Walk(queue[1..], visited, h)
    else
      [queue[0].room] + Walk(QueueAfter(queue, visited, h), visited + {queue[0].room}, h)
  }

  /** The queue once its accessible, unvisited head has been expanded. */
  function QueueAfter(queue: seq<Item>, visited: set<Room>, h: Hierarchy): seq<Item>
    requires queue != [] && queue[0].room in h.summaries
  {
    var Item(room, depth) := queue[0];
    queue[1..] + if depth < h.maxDepth then Enqueue(ChildRooms(room, h), depth + 1, visited + {room}) else []
  }

  function InitialQueue(h: Hierarchy): seq<Item>
    requires h.root in h.summaries
  {
    if h.maxDepth > 0 then Enqueue(ChildRooms(h.root, h), 1, {h.root}) else []
  }

  /** Every accessible room the traversal emits, root first. */
  function Order(h: Hierarchy): seq<Room>
    requires h.root in h.summaries
  {
    [h.root] + Walk(InitialQueue(h), {h.root}, h)
  }

  // ---------------------------------------------------------------- what it emits

  /** The accessible rooms, each with its accessible listed children. */
  type Graph = map<Room, set<Room>>

  function GraphOf(h: Hierarchy): Graph {
    map room | room in h.summaries ::
      set c | c in h.summaries[room].children && (c.suggested || !h.suggestedOnly) && c.room in h.summaries :: c.room
  }

  /** The accessible rooms reachable from `root` through accessible rooms in at most `n` hops. */
  ghost function Within(n: nat, root: Room, g: Graph): set<Room> {
    if n == 0 then {root}
    else
      var nearer := Within(n - 1, root, g);
      nearer + set p, room | p in nearer && p in g && room in g[p] :: room
  }

  lemma {:induction false} WithinGrows(m: nat, n: nat, root: Room, g: Graph)
    requires m <= n
    ensures Within(m, root, g) <= Within(n, root, g)
    decreases n
  {
    if m < n {
      WithinGrows(m, n - 1, root, g);
    }
  }

  lemma WithinStep(n: nat, root: Room, g: Graph, p: Room, room: Room)
    requires p in Within(n, root, g) && p in g && room in g[p]
    ensures room in Within(n + 1, root, g)
  {
  }

  /** Visited rooms with the depth at which they were reached. */
  type Depths = map<Room, nat>

  /** Rooms are visited at a depth within budget at which they are indeed reachable. */
  ghost predicate DepthsSound(at: Depths, root: Room, g: Graph, maxDepth: nat) {
    && root in at && at[root] == 0
    && forall room | room in at :: room in g && at[room] <= maxDepth && room in Within(at[room], root, g)
  }

  ghost predicate QueueSound(queue: seq<Item>, root: Room, g: Graph, maxDepth: nat) {
    forall item | item in queue ::
      1 <= item.depth <= maxDepth && (item.room in g ==> item.room in Within(item.depth, root, g))
  }

  /** First in, first out keeps depths sorted and within one of each other, never below a visited one. */
  ghost predicate Layered(queue: seq<Item>, at: Depths) {
    Ordered(queue) && forall room | room in at :: NoneBelow(at[room], queue)
  }

  ghost predicate Ordered(queue: seq<Item>) {
    forall i, j | 0 <= i < j < |queue| :: queue[i].depth <= queue[j].depth <= queue[i].depth + 1
  }

  ghost predicate NoneBelow(depth: nat, queue: seq<Item>) {
    forall i | 0 <= i < |queue| :: depth <= queue[i].depth
  }

  /** Every child of a visited room within budget is visited no deeper, or is queued. */
  ghost predicate Expanded(queue: seq<Item>, at: Depths, g: Graph, maxDepth: nat) {
    forall room, child {:trigger ChildDone(room, child, queue, at)}
      | room in at && room in g && at[room] < maxDepth && child in g[room] :: ChildDone(room, child, queue, at)
  }

  ghost predicate ChildDone(room: Room, child: Room, queue: seq<Item>, at: Depths)
    requires room in at
  {
    Settled(child, at[room] + 1, queue, at)
  }

  ghost predicate Settled(child: Room, depth: nat, queue: seq<Item>, at: Depths) {
    (child in at && at[child] <= depth) || Item(child, depth) in queue
  }

  ghost predicate Progress(queue: seq<Item>, at: Depths, root: Room, g: Graph, maxDepth: nat) {
    && DepthsSound(at, root, g, maxDepth)
    && QueueSound(queue, root, g, maxDepth)
    && Layered(queue, at)
    && Expanded(queue, at, g, maxDepth)
  }

  lemma DropLayered(queue: seq<Item>, at: Depths)
    requires queue != [] && Layered(queue, at)
    ensures Layered(queue[1..], at)
    ensures queue[0].room in at ==> at[queue[0].room] <= queue[0].depth
  {
    forall room | room in at ensures NoneBelow(at[room], queue[1..]) && at[room] <= queue[0].depth {
      assert NoneBelow(at[room], queue);
    }
  }

  lemma DropSettled(child: Room, depth: nat, queue: seq<Item>, at: Depths)
    requires queue != [] && Settled(child, depth, queue, at)
    requires if queue[0].room in at then at[queue[0].room] <= queue[0].depth else child != queue[0].room
    ensures Settled(child, depth, queue[1..], at)
  {
    assert queue == [queue[0]] + queue[1..];
  }

  lemma DropExpanded(queue: seq<Item>, at: Depths, g: Graph, maxDepth: nat)
    requires queue != [] && Layered(queue, at) && Expanded(queue, at, g, maxDepth)
    requires queue[0].room in at || queue[0].room !in g
    requires forall p, c | p in g && c in g[p] :: c in g
    ensures Expanded(queue[1..], at, g, maxDepth)
  {
    DropLayered(queue, at);
    forall room, child | room in at && room in g && at[room] < maxDepth && child in g[room]
      ensures ChildDone(room, child, queue[1..], at)
    {
      assert ChildDone(room, child, queue, at);
      DropSettled(child, at[room] + 1, queue, at);
    }
  }

  /** Dropping a head that is visited already, or inaccessible, keeps the invariant. */
  lemma DropProgress(queue: seq<Item>, at: Depths, root: Room, g: Graph, maxDepth: nat)
    requires queue != [] && Progress(queue, at, root, g, maxDepth)
    requires queue[0].room in at || queue[0].room !in g
    requires forall p, c | p in g && c in g[p] :: c in g
    ensures Progress(queue[1..], at, root, g, maxDepth)
  {
    DropLayered(queue, at);
    DropExpanded(queue, at, g, maxDepth);
    assert forall item | item in queue[1..] :: item in queue;
  }

  /** `added` are the queue entries for the unvisited children of the head, if within budget. */
  ghost predicate Added(added: seq<Item>, head: Item, at: Depths, g: Graph, maxDepth: nat) {
    && (forall item | item in added :: item.depth == head.depth + 1 <= maxDepth && (item.room in g ==> head.room in g && item.room in g[head.room]))
    && (head.depth < maxDepth && head.room in g ==>
          forall child | child in g[head.room] && child !in at && child != head.room :: Item(child, head.depth + 1) in added)
  }

  lemma AddLayered(queue: seq<Item>, added: seq<Item>, at: Depths)
    requires queue != [] && Layered(queue, at)
    requires forall item | item in added :: item.depth == queue[0].depth + 1
    ensures Layered(queue[1..] + added, at[queue[0].room := queue[0].depth])
  {
    var after := queue[1..] + added;
    assert forall i | 0 <= i < |queue| - 1 :: after[i] == queue[i + 1];
    assert forall i | |queue| - 1 <= i < |after| :: after[i] in added;
    assert NoneBelow(queue[0].depth, after);
    forall room | room in at ensures NoneBelow(at[room], after) {
      assert NoneBelow(at[room], queue) && at[room] <= queue[0].depth;
    }
  }

  lemma AddSound(queue: seq<Item>, added: seq<Item>, at: Depths, root: Room, g: Graph, maxDepth: nat)
    requires queue != [] && QueueSound(queue, root, g, maxDepth)
    requires queue[0].room in g && Added(added, queue[0], at, g, maxDepth)
    ensures QueueSound(queue[1..] + added, root, g, maxDepth)
    ensures queue[0].room in Within(queue[0].depth, root, g) && queue[0].depth <= maxDepth
  {
    assert queue[0] in queue;
    forall item | item in queue[1..] + added
      ensures 1 <= item.depth <= maxDepth && (item.room in g ==> item.room in Within(item.depth, root, g))
    {
      if item in added {
        if item.room in g {
          WithinStep(queue[0].depth, root, g, queue[0].room, item.room);
        }
      } else {
        assert item in queue[1..] && item in queue;
      }
    }
  }

  /** A child of the expanded head is visited already or queued. */
  lemma ChildSettled(child: Room, queue: seq<Item>, added: seq<Item>, at: Depths, g: Graph, maxDepth: nat)
    requires queue != [] && Layered(queue, at) && Added(added, queue[0], at, g, maxDepth)
    requires queue[0].room in g && queue[0].depth < maxDepth && child in g[queue[0].room]
    ensures Settled(child, queue[0].depth + 1, queue[1..] + added, at[queue[0].room := queue[0].depth])
  {
    assert child in at ==> NoneBelow(at[child], queue);
  }

  lemma StaysSettled(child: Room, depth: nat, queue: seq<Item>, added: seq<Item>, at: Depths)
    requires queue != [] && queue[0].room !in at && Settled(child, depth, queue, at)
    ensures Settled(child, depth, queue[1..] + added, at[queue[0].room := queue[0].depth])
  {
    assert queue == [queue[0]] + queue[1..];
  }

  lemma AddExpanded(queue: seq<Item>, added: seq<Item>, at: Depths, g: Graph, maxDepth: nat)
    requires queue != [] && Layered(queue, at) && Expanded(queue, at, g, maxDepth)
    requires queue[0].room !in at && Added(added, queue[0], at, g, maxDepth)
    ensures Expanded(queue[1..] + added, at[queue[0].room := queue[0].depth], g, maxDepth)
  {
    var after, at' := queue[1..] + added, at[queue[0].room := queue[0].depth];
    forall p, child | p in at' && p in g && at'[p] < maxDepth && child in g[p]
      ensures ChildDone(p, child, after, at')
    {
      if p == queue[0].room {
        ChildSettled(child, queue, added, at, g, maxDepth);
      } else {
        assert ChildDone(p, child, queue, at);
        StaysSettled(child, at[p] + 1, queue, added, at);
      }
    }
  }

  /** The entries enqueued for a room are those its unvisited accessible children need. */
  lemma QueueAfterAdds(queue: seq<Item>, at: Depths, h: Hierarchy) returns (added: seq<Item>)
    requires queue != [] && queue[0].room in h.summaries
    ensures QueueAfter(queue, at.Keys, h) == queue[1..] + added
    ensures Added(added, queue[0], at, GraphOf(h), h.maxDepth)
  {
    var Item(room, depth) := queue[0];
    added := if depth < h.maxDepth then Enqueue(ChildRooms(room, h), depth + 1, at.Keys + {room}) else [];
    EnqueueItems(ChildRooms(room, h), depth + 1, at.Keys + {room});
    ChildrenInGraph(room, h);
  }

  /** Depths never decrease along `rooms`, and start no lower than `from`. */
  ghost predicate Outward(rooms: seq<Room>, from: nat, at: Depths) {
    && (forall i | 0 <= i < |rooms| :: rooms[i] in at && from <= at[rooms[i]])
    && (forall i, j | 0 <= i < j < |rooms| :: at[rooms[i]] <= at[rooms[j]])
  }

  function HeadDepth(queue: seq<Item>): nat {
    if queue == [] then 0 else queue[0].depth
  }

  /** `rooms` are exactly the rooms of `final` not yet in `at`, once each and outward. */
  ghost predicate Completed(rooms: seq<Room>, from: nat, at: Depths, final: Depths) {
    && final.Keys == at.Keys + Elements(rooms)
    && (forall room | room in at :: final[room] == at[room])
    && Distinct(rooms) && at.Keys !! Elements(rooms)
    && Outward(rooms, from, final)
  }

  lemma OutwardCons(room: Room, rest: seq<Room>, depth: nat, from: nat, final: Depths)
    requires room in final && final[room] == depth && Outward(rest, from, final)
    requires rest == [] || depth <= from
    ensures Outward([room] + rest, depth, final)
  {
    var all := [room] + rest;
    assert forall i | 1 <= i < |all| :: all[i] == rest[i - 1];
  }

  lemma DistinctCons(room: Room, rest: seq<Room>)
    requires Distinct(rest) && room !in rest
    ensures Distinct([room] + rest) && Elements([room] + rest) == {room} + Elements(rest)
  {
    DistinctConcat([room], rest);
  }

  lemma CompletedCons(room: Room, rest: seq<Room>, depth: nat, from: nat, at: Depths, final: Depths)
    requires room !in at && Completed(rest, from, at[room := depth], final)
    requires rest == [] || depth <= from
    ensures Completed([room] + rest, depth, at, final)
  {
    var at' := at[room := depth];
    assert room in at' && forall r | r in at :: r in at' && at'[r] == at[r];
    assert room !in Elements(rest);
    DistinctCons(room, rest);
    OutwardCons(room, rest, depth, from, final);
  }

  /** The walk ends with every room settled, having emitted exactly the newly visited ones, once and
      in order of depth. */
  lemma {:induction false} WalkCompletes(queue: seq<Item>, at: Depths, h: Hierarchy) returns (final: Depths)
    requires Progress(queue, at, h.root, GraphOf(h), h.maxDepth)
    ensures Progress([], final, h.root, GraphOf(h), h.maxDepth)
    ensures Completed(Walk(queue, at.Keys, h), HeadDepth(queue), at, final)
    decreases h.summaries.Keys - at.Keys, |queue|
  {
    if queue == [] {
      final := at;
    } else if queue[0].room in at || queue[0].room !in h.summaries {
      DropProgress(queue, at, h.root, GraphOf(h), h.maxDepth);
      final := WalkCompletes(queue[1..], at, h);
      assert queue[1..] != [] ==> HeadDepth(queue) <= HeadDepth(queue[1..]);
    } else {
      var Item(room, depth) := queue[0];
      var after := ExpandProgress(queue, at, h);
      var at' := at[room := depth];
      assert at'.Keys == at.Keys + {room};
      final := WalkCompletes(after, at', h);
      CompletedCons(room, Walk(after, at'.Keys, h), depth, HeadDepth(after), at, final);
    }
  }

  lemma ExpandProgress(queue: seq<Item>, at: Depths, h: Hierarchy) returns (after: seq<Item>)
    requires Progress(queue, at, h.root, GraphOf(h), h.maxDepth)
    requires queue != [] && queue[0].room !in at && queue[0].room in h.summaries
    ensures after == QueueAfter(queue, at.Keys, h)
    ensures Progress(after, at[queue[0].room := queue[0].depth], h.root, GraphOf(h), h.maxDepth)
    ensures after != [] ==> queue[0].depth <= HeadDepth(after)
  {
    var added := QueueAfterAdds(queue, at, h);
    after := queue[1..] + added;
    AddLayered(queue, added, at);
    AddSound(queue, added, at, h.root, GraphOf(h), h.maxDepth);
    AddExpanded(queue, added, at, GraphOf(h), h.maxDepth);
    assert queue[0].room in at[queue[0].room := queue[0].depth];
    assert NoneBelow(queue[0].depth, after);
  }

  /** With an empty queue, every room within `n` hops was visited at depth at most `n`. */
  lemma {:induction false} AllWithinVisited(n: nat, at: Depths, root: Room, g: Graph, maxDepth: nat)
    requires Progress([], at, root, g, maxDepth) && n <= maxDepth
    ensures forall room | room in Within(n, root, g) :: room in at && at[room] <= n
  {
    if n > 0 {
      AllWithinVisited(n - 1, at, root, g, maxDepth);
      forall room | room in Within(n, root, g) ensures room in at && at[room] <= n {
        if room !in Within(n - 1, root, g) {
          var p :| p in Within(n - 1, root, g) && p in g && room in g[p];
          assert ChildDone(p, room, [], at);
        }
      }
    }
  }

  lemma InitialProgress(h: Hierarchy)
    requires h.root in h.summaries
    ensures Progress(InitialQueue(h), map[h.root := 0], h.root, GraphOf(h), h.maxDepth)
  {
    var queue, at, g := InitialQueue(h), map[h.root := 0], GraphOf(h);
    EnqueueItems(ChildRooms(h.root, h), 1, {h.root});
    ChildrenInGraph(h.root, h);
    forall item | item in queue
      ensures item.depth == 1 <= h.maxDepth && (item.room in g ==> item.room in Within(1, h.root, g))
    {
      if item.room in g {
        WithinStep(0, h.root, g, h.root, item.room);
      }
    }
    assert forall i | 0 <= i < |queue| :: queue[i] in queue;
  }

  lemma OrderDepths(h: Hierarchy) returns (final: Depths)
    requires h.root in h.summaries
    ensures Progress([], final, h.root, GraphOf(h), h.maxDepth)
    ensures Distinct(Order(h)) && Elements(Order(h)) == final.Keys
    ensures Outward(Order(h), 0, final)
  {
    InitialProgress(h);
    var at: Depths := map[h.root := 0];
    assert at.Keys == {h.root};
    final := WalkCompletes(InitialQueue(h), at, h);
    var rest := Walk(InitialQueue(h), {h.root}, h);
    var none: Depths := map[];
    assert none[h.root := 0] == at;
    CompletedCons(h.root, rest, 0, HeadDepth(InitialQueue(h)), none, final);
  }

  /** The traversal emits each room at most once, and exactly the accessible rooms reachable from the
      root through accessible rooms in at most `maxDepth` hops. */
  lemma OrderIsExact(h: Hierarchy)
    requires h.root in h.summaries
    ensures Distinct(Order(h))
    ensures Elements(Order(h)) == Within(h.maxDepth, h.root, GraphOf(h))
  {
    var final := OrderDepths(h);
    var g := GraphOf(h);
    AllWithinVisited(h.maxDepth, final, h.root, g, h.maxDepth);
    forall room | room in final ensures room in Within(h.maxDepth, h.root, g) {
      WithinGrows(final[room], h.maxDepth, h.root, g);
    }
  }

  /** `n` is the least number of hops in which `room` is reached. */
  ghost predicate Hops(room: Room, n: nat, root: Room, g: Graph) {
    room in Within(n, root, g) && forall m: nat | room in Within(m, root, g) :: n <= m
  }

  lemma DepthIsHops(room: Room, n: nat, final: Depths, root: Room, g: Graph, maxDepth: nat)
    requires Progress([], final, root, g, maxDepth)
    requires room in final && Hops(room, n, root, g)
    ensures final[room] == n
  {
    assert n <= final[room];
    AllWithinVisited(n, final, root, g, maxDepth);
  }

  /** Rooms come out in order of their distance from the root: the traversal is breadth-first. */
  lemma OrderIsBreadthFirst(h: Hierarchy, i: nat, j: nat, m: nat, n: nat)
    requires h.root in h.summaries
    requires i < j < |Order(h)|
    requires Hops(Order(h)[i], m, h.root, GraphOf(h)) && Hops(Order(h)[j], n, h.root, GraphOf(h))
    ensures m <= n
  {
    var final := OrderDepths(h);
    DepthIsHops(Order(h)[i], m, final, h.root, GraphOf(h), h.maxDepth);
    DepthIsHops(Order(h)[j], n, final, h.root, GraphOf(h), h.maxDepth);
  }
}
