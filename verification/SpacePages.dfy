/** Serving the space hierarchy page by page. */
module SpacePages {
  import opened Basics
  import opened SpaceHierarchy

  type ShortId = nat

  /** The server-wide assignment of short ids to rooms. */
  class ShortIds {
    var ids: map<Room, ShortId>
    var next: ShortId
    ghost var owner: map<ShortId, Room>

    ghost predicate Valid()
      reads this
    {
      Inverts(owner, ids) && forall id | id in owner :: id < next
    }

    constructor ()
      ensures Valid() && ids == map[]
    {
      ids, next, owner := map[], 0, map[];
    }

    method GetOrCreate(room: Room) returns (id: ShortId)
      requires Valid()
      modifies this
      ensures Valid()
      ensures Extends(old(ids), ids) && room in ids && ids[room] == id
    {
      if room !in ids {
        ids := ids[room := next];
        owner := owner[next := room];
        next := next + 1;
      }
      id := ids[room];
    }
  }

  /** No two rooms share a short id: `owner` leads back from each. */
  ghost predicate Inverts(owner: map<ShortId, Room>, ids: map<Room, ShortId>) {
    forall room | room in ids :: ids[room] in owner && owner[ids[room]] == room
  }

  /** Assignments are never changed, only added. */
  ghost predicate Extends(before: map<Room, ShortId>, after: map<Room, ShortId>) {
    forall room | room in before :: room in after && after[room] == before[room]
  }

  datatype Token = Token(shortIds: seq<ShortId>, limit: nat, maxDepth: nat, suggestedOnly: bool)

  /** An error of the summary service, passed on as it is. */
  datatype Fault = Fault(message: string)

  datatype Response = Failed(fault: Fault) | Forbidden | Page(rooms: seq<Room>, next: Option<Token>)

  // ---------------------------------------------------------------- one page

  predicate Serializable(room: Room, h: Hierarchy) {
    room in h.summaries && !h.summaries[room].customJoinRule
  }

  predicate Shows(room: Room, skip: set<Room>, h: Hierarchy) {
    room !in skip && Serializable(room, h)
  }

  /** The serializable rooms of `rooms` that are not skipped, in order. */
  function Visible(rooms: seq<Room>, skip: set<Room>, h: Hierarchy): seq<Room> {
    if rooms == [] then []
    else (if Shows(rooms[0], skip, h) then [rooms[0]] else []) + Visible(rooms[1..], skip, h)
  }

  /** Everything the hierarchy has to show. */
  function Shown(h: Hierarchy): seq<Room>
    requires h.root in h.summaries
  {
    Visible(Order(h), {}, h)
  }

  function Take(rooms: seq<Room>, limit: nat): seq<Room> {
    if |rooms| <= limit then rooms else rooms[..limit]
  }

  /** The rooms a list of short ids stands for. */
  function Skipped(shortIds: seq<ShortId>, ids: map<Room, ShortId>): set<Room> {
    set room | room in ids && ids[room] in shortIds
  }

  function IdsOf(rooms: seq<Room>, ids: map<Room, ShortId>): seq<ShortId>
    requires forall room | room in rooms :: room in ids
  {
    seq(|rooms|, i requires 0 <= i < |rooms| => ids[rooms[i]])
  }

  method AllocateAll(rooms: seq<Room>, shorts: ShortIds) returns (shortIds: seq<ShortId>)
    requires shorts.Valid()
    modifies shorts
    ensures shorts.Valid() && Extends(old(shorts.ids), shorts.ids)
    ensures forall room | room in rooms :: room in shorts.ids
    ensures shortIds == IdsOf(rooms, shorts.ids)
  {
    shortIds := [];
    for i := 0 to |rooms|
      invariant shorts.Valid() && Extends(old(shorts.ids), shorts.ids)
      invariant |shortIds| == i
      invariant forall j | 0 <= j < i :: rooms[j] in shorts.ids && shortIds[j] == shorts.ids[rooms[j]]
    {
      var id := shorts.GetOrCreate(rooms[i]);
      shortIds := shortIds + [id];
    }
  }

  /** The traversal cut off once the page is full: the first `limit` rooms it has to show. */
  method CollectRooms(h: Hierarchy, limit: nat, skip: set<Room>) returns (rooms: seq<Room>)
    requires h.root in h.summaries
    ensures rooms == Take(Visible(Order(h), skip, h), limit)
  {
    if limit == 0 {
      return [];
    }
    rooms := if Shows(h.root, skip, h) then [h.root] else [];
    var queue, visited := InitialQueue(h), {h.root};
    ghost var all := Visible(Order(h), skip, h);
    VisibleCons(h.root, Walk(queue, visited, h), skip, h);
    while queue != [] && |rooms| < limit
      invariant |rooms| <= limit
      invariant all == rooms + Visible(Walk(queue, visited, h), skip, h)
      decreases h.summaries.Keys - visited, |queue|
    {
      var Item(room, depth) := queue[0];
      if room in visited || room !in h.summaries {
        queue := queue[1..];
      } else {
        VisibleAdvance(all, rooms, room, Walk(QueueAfter(queue, visited, h), visited + {room}, h), skip, h);
        queue := QueueAfter(queue, visited, h);
        visited := visited + {room};
        if Shows(room, skip, h) {
          rooms := rooms + [room];
        }
      }
    }
    assert queue == [] ==> all == rooms;
  }

  lemma VisibleCons(room: Room, rest: seq<Room>, skip: set<Room>, h: Hierarchy)
    ensures Visible([room] + rest, skip, h) == (if Shows(room, skip, h) then [room] else []) + Visible(rest, skip, h)
  {
    assert ([room] + rest)[1..] == rest;
  }

  lemma VisibleAdvance(all: seq<Room>, rooms: seq<Room>, room: Room, rest: seq<Room>, skip: set<Room>, h: Hierarchy)
    requires all == rooms + Visible([room] + rest, skip, h)
    ensures all == (if Shows(room, skip, h) then rooms + [room] else rooms) + Visible(rest, skip, h)
  {
    VisibleCons(room, rest, skip, h);
  }

  /** A full page carries a token that lists the rooms skipped before and those on the page. */
  ghost predicate TokenFor(r: Response, h: Hierarchy, limit: nat, skipIds: seq<ShortId>, ids: map<Room, ShortId>)
    requires r.Page?
  {
    if limit > 0 && |r.rooms| == limit then
      && (forall room | room in r.rooms :: room in ids)
      && r.next == Some(Token(skipIds + IdsOf(r.rooms, ids), limit, h.maxDepth, h.suggestedOnly))
    else r.next == None
  }

  /** The fault of looking up the root, a refusal when it is inaccessible, or a page, with a token
      that lists every room shown so far when the page is full. */
  method GetClientHierarchy(h: Hierarchy, rootFault: Option<Fault>, limit: nat, skipIds: seq<ShortId>, shorts: ShortIds)
    returns (r: Response)
    requires shorts.Valid()
    modifies shorts
    ensures shorts.Valid() && Extends(old(shorts.ids), shorts.ids)
    ensures rootFault.Some? || h.root !in h.summaries ==> shorts.ids == old(shorts.ids)
    ensures rootFault.Some? ==> r == Failed(rootFault.value)
    ensures rootFault.None? && h.root !in h.summaries ==> r == Forbidden
    ensures rootFault.None? && h.root in h.summaries ==>
              && r.Page?
              && r.rooms == Take(Visible(Order(h), Skipped(skipIds, old(shorts.ids)), h), limit)
              && TokenFor(r, h, limit, skipIds, shorts.ids)
  {
    if rootFault.Some? {
      return Failed(rootFault.value);
    }
    if h.root !in h.summaries {
      return Forbidden;
    }
    var rooms := CollectRooms(h, limit, Skipped(skipIds, shorts.ids));
    var next := None;
    if limit > 0 && |rooms| >= limit {
      var added := AllocateAll(rooms, shorts);
      var nextSkip := skipIds + added;
      if |nextSkip| > |skipIds| {
        next := Some(Token(nextSkip, limit, h.maxDepth, h.suggestedOnly));
      }
    }
    r := Page(rooms, next);
  }

  // ---------------------------------------------------------------- following tokens

  lemma {:induction false} VisibleAgrees(rooms: seq<Room>, skip: set<Room>, skip': set<Room>, h: Hierarchy)
    requires forall room | room in rooms :: room in skip <==> room in skip'
    ensures Visible(rooms, skip, h) == Visible(rooms, skip', h)
  {
    if rooms != [] {
      VisibleAgrees(rooms[1..], skip, skip', h);
    }
  }

  lemma {:induction false} VisibleMembers(rooms: seq<Room>, skip: set<Room>, h: Hierarchy)
    ensures forall room | room in Visible(rooms, skip, h) :: room in rooms && room !in skip
    ensures Distinct(rooms) ==> Distinct(Visible(rooms, skip, h))
  {
    if rooms != [] {
      VisibleMembers(rooms[1..], skip, h);
      assert rooms == [rooms[0]] + rooms[1..];
      if Distinct(rooms) {
        assert rooms[0] !in rooms[1..];
      }
    }
  }

  lemma VisibleHead(rooms: seq<Room>, skip: set<Room>, h: Hierarchy)
    requires rooms != []
    ensures Visible(rooms, skip, h) == (if Shows(rooms[0], skip, h) then [rooms[0]] else []) + Visible(rooms[1..], skip, h)
  {
  }

  /** A shown head is skipped with the rooms after it. */
  lemma SkipShownHead(rooms: seq<Room>, tail: seq<Room>, h: Hierarchy)
    requires rooms != [] && rooms[0] !in rooms[1..]
    ensures Visible(rooms, Elements([rooms[0]] + tail), h) == Visible(rooms[1..], Elements(tail), h)
  {
    VisibleHead(rooms, Elements([rooms[0]] + tail), h);
    VisibleAgrees(rooms[1..], Elements([rooms[0]] + tail), Elements(tail), h);
  }

  /** A head that is not shown changes nothing. */
  lemma SkipHiddenHead(rooms: seq<Room>, skip: set<Room>, h: Hierarchy)
    requires rooms != [] && !Shows(rooms[0], {}, h)
    ensures Visible(rooms, skip, h) == Visible(rooms[1..], skip, h)
  {
    VisibleHead(rooms, skip, h);
  }

  lemma HeadAndRest(head: Room, rest: seq<Room>, n: nat)
    requires 0 < n <= |rest| + 1
    ensures ([head] + rest)[..n] == [head] + rest[..n - 1]
    ensures ([head] + rest)[n..] == rest[n - 1..]
  {
  }

  lemma DistinctTail(rooms: seq<Room>)
    requires Distinct(rooms) && rooms != []
    ensures Distinct(rooms[1..]) && rooms[0] !in rooms[1..]
  {
  }

  lemma {:induction false} VisibleIff(rooms: seq<Room>, skip: set<Room>, h: Hierarchy, room: Room)
    ensures room in Visible(rooms, skip, h) <==>
            room in rooms && room !in skip && room in h.summaries && !h.summaries[room].customJoinRule
  {
    if rooms != [] {
      VisibleIff(rooms[1..], skip, h, room);
      VisibleHead(rooms, skip, h);
      assert rooms == [rooms[0]] + rooms[1..];
    }
  }

  /** What is shown: exactly the rooms of the traversal whose join rule is not a custom one. */
  lemma ShownIff(h: Hierarchy, room: Room)
    requires h.root in h.summaries
    ensures room in Shown(h) <==>
            && room in Within(h.maxDepth, h.root, GraphOf(h))
            && room in h.summaries && !h.summaries[room].customJoinRule
  {
    OrderIsExact(h);
    VisibleIff(Order(h), {}, h, room);
    assert room in Order(h) <==> room in Elements(Order(h));
  }

  /** Skipping what was shown first leaves what was to be shown next. */
  lemma {:induction false} VisibleWithout(rooms: seq<Room>, n: nat, h: Hierarchy)
    requires Distinct(rooms)
    requires n <= |Visible(rooms, {}, h)|
    ensures Visible(rooms, Elements(Visible(rooms, {}, h)[..n]), h) == Visible(rooms, {}, h)[n..]
  {
    var full := Visible(rooms, {}, h);
    if n == 0 {
      assert Elements(full[..0]) == {} && full[0..] == full;
    } else {
      var head, rest := rooms[0], rooms[1..];
      var full' := Visible(rest, {}, h);
      DistinctTail(rooms);
      VisibleHead(rooms, {}, h);
      if Shows(head, {}, h) {
        HeadAndRest(head, full', n);
        VisibleWithout(rest, n - 1, h);
        SkipShownHead(rooms, full'[..n - 1], h);
      } else {
        assert full == full';
        VisibleWithout(rest, n, h);
        SkipHiddenHead(rooms, Elements(full[..n]), h);
      }
    }
  }

  /** The ids of some rooms skip exactly those rooms. */
  lemma SkippedIds(rooms: seq<Room>, shortIds: seq<ShortId>, ids: map<Room, ShortId>, owner: map<ShortId, Room>)
    requires Inverts(owner, ids)
    requires forall room | room in rooms :: room in ids
    requires shortIds == IdsOf(rooms, ids)
    ensures Skipped(shortIds, ids) == Elements(rooms)
  {
    forall room ensures room in Skipped(shortIds, ids) <==> room in rooms {
      if room in rooms {
        var i :| 0 <= i < |rooms| && rooms[i] == room;
        assert shortIds[i] == ids[room];
      }
      if room in Skipped(shortIds, ids) {
        var i :| 0 <= i < |shortIds| && shortIds[i] == ids[room];
        assert rooms[i] in rooms;
      }
    }
  }

  /** `skip` is the token content after the first `n` rooms of `shown`. */
  ghost predicate Resumes(skip: seq<ShortId>, n: nat, shown: seq<Room>, ids: map<Room, ShortId>) {
    && n <= |shown|
    && (forall room | room in shown[..n] :: room in ids)
    && skip == IdsOf(shown[..n], ids)
  }

  /** A token makes the next traversal show exactly what is left. */
  lemma VisibleResumes(h: Hierarchy, skip: seq<ShortId>, n: nat, shown: seq<Room>, ids: map<Room, ShortId>, owner: map<ShortId, Room>)
    requires h.root in h.summaries && shown == Shown(h)
    requires Inverts(owner, ids) && Resumes(skip, n, shown, ids)
    ensures Visible(Order(h), Skipped(skip, ids), h) == shown[n..]
  {
    OrderIsExact(h);
    SkippedIds(shown[..n], skip, ids, owner);
    VisibleWithout(Order(h), n, h);
  }

  /** The token of a full page lists the rooms shown up to its end. */
  lemma TokenResumes(r: Response, h: Hierarchy, limit: nat, skip: seq<ShortId>, n: nat, shown: seq<Room>,
                     before: map<Room, ShortId>, after: map<Room, ShortId>)
    requires r.Page? && limit > 0 && TokenFor(r, h, limit, skip, after)
    requires Resumes(skip, n, shown, before) && Extends(before, after)
    requires r.rooms == Take(shown[n..], limit)
    ensures r.next.Some? <==> |r.rooms| == limit
    ensures r.next.Some? ==>
              && n + limit <= |shown| && r.rooms == shown[n..n + limit]
              && Resumes(r.next.value.shortIds, n + limit, shown, after)
    ensures r.next.None? ==> r.rooms == shown[n..] && |r.rooms| < limit
  {
  }

  /** The page after the first `n` rooms: full with a token to go on from, or the rest without one. */
  method NextPage(h: Hierarchy, limit: nat, skip: seq<ShortId>, shorts: ShortIds, ghost n: nat, ghost shown: seq<Room>)
    returns (r: Response)
    requires shorts.Valid()
    requires h.root in h.summaries && limit > 0 && shown == Shown(h)
    requires Resumes(skip, n, shown, shorts.ids)
    modifies shorts
    ensures shorts.Valid() && r.Page?
    ensures r.next.Some? ==>
              && n + limit <= |shown| && r.rooms == shown[n..n + limit]
              && Resumes(r.next.value.shortIds, n + limit, shown, shorts.ids)
    ensures r.next.None? ==> r.rooms == shown[n..] && |r.rooms| < limit
  {
    ghost var before := shorts.ids;
    VisibleResumes(h, skip, n, shown, shorts.ids, shorts.owner);
    r := GetClientHierarchy(h, None, limit, skip, shorts);
    TokenResumes(r, h, limit, skip, n, shown, before, shorts.ids);
  }

  /** The pages a client gets that has been shown the first `n` rooms. */
  method FollowFrom(h: Hierarchy, limit: nat, skip: seq<ShortId>, shorts: ShortIds, ghost n: nat, ghost shown: seq<Room>)
    returns (pages: seq<seq<Room>>)
    requires shorts.Valid()
    requires h.root in h.summaries && limit > 0 && shown == Shown(h)
    requires Resumes(skip, n, shown, shorts.ids)
    modifies shorts
    ensures shorts.Valid()
    ensures Paged(pages, shown[n..], limit)
    decreases |shown| - n
  {
    var response := NextPage(h, limit, skip, shorts, n, shown);
    if response.next.Some? {
      var rest := FollowFrom(h, limit, response.next.value.shortIds, shorts, n + limit, shown);
      pages := [response.rooms] + rest;
      PagedCons(response.rooms, rest, shown, n, limit);
    } else {
      pages := [response.rooms];
      PagedLast(response.rooms, limit);
    }
  }

  /** `pages` divide `rooms` in order: all but the last are full, the last is not. */
  ghost predicate Paged(pages: seq<seq<Room>>, rooms: seq<Room>, limit: nat) {
    && Flatten(pages) == rooms
    && pages != [] && |pages[|pages| - 1]| < limit
    && forall i | 0 <= i < |pages| - 1 :: |pages[i]| == limit
  }

  lemma PagedLast(page: seq<Room>, limit: nat)
    requires |page| < limit
    ensures Paged([page], page, limit)
  {
    assert [page][1..] == [] && page + [] == page;
  }

  lemma PagedCons(page: seq<Room>, rest: seq<seq<Room>>, shown: seq<Room>, n: nat, limit: nat)
    requires n + limit <= |shown| && page == shown[n..n + limit]
    requires Paged(rest, shown[n + limit..], limit)
    ensures Paged([page] + rest, shown[n..], limit)
  {
    assert ([page] + rest)[1..] == rest;
    assert shown[n..] == shown[n..n + limit] + shown[n + limit..];
    var pages := [page] + rest;
    assert forall i | 1 <= i < |pages| :: pages[i] == rest[i - 1];
  }

  /** A client that follows tokens over an unchanged hierarchy is shown every serializable room the
      traversal reaches, in order and once: all pages but the last are full, the last is not. */
  method FollowTokens(h: Hierarchy, limit: nat, shorts: ShortIds) returns (pages: seq<seq<Room>>)
    requires shorts.Valid()
    requires h.root in h.summaries && limit > 0
    modifies shorts
    ensures shorts.Valid()
    ensures Paged(pages, Shown(h), limit)
    ensures Distinct(Shown(h))
  {
    pages := FollowFrom(h, limit, [], shorts, 0, Shown(h));
    assert Shown(h)[0..] == Shown(h);
    OrderIsExact(h);
    VisibleMembers(Order(h), {}, h);
  }
}
