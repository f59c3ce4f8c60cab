/** Splitting state forks into agreed and disputed slots, and the auth difference. */
module Forks {
  import opened Basics
  import opened RoomEvents

  type ConflictedState = map<Slot, set<EventId>>

  /** The distinct events the forks assign to `slot`; a fork that omits the slot says nothing. */
  function Candidates(forks: set<StateMap>, slot: Slot): set<EventId> {
    set fork | fork in forks && slot in fork :: fork[slot]
  }

  function Slots(forks: set<StateMap>): set<Slot> {
    set fork, slot | fork in forks && slot in fork :: slot
  }

  ghost predicate Agreed(forks: set<StateMap>, slot: Slot, id: EventId) {
    Candidates(forks, slot) == {id}
  }

  ghost function Unconflicted(forks: set<StateMap>): (m: StateMap)
    ensures forall slot :: slot in m <==> exists id :: Agreed(forks, slot, id)
    ensures forall slot | slot in m :: Agreed(forks, slot, m[slot])
    ensures m.Keys <= Slots(forks)
  {
    assert forall slot, id | Agreed(forks, slot, id) :: slot in Slots(forks) by {
      forall slot, id | Agreed(forks, slot, id) ensures slot in Slots(forks) {
        assert id in Candidates(forks, slot);
      }
    }
    map slot | slot in Slots(forks) && exists id :: Agreed(forks, slot, id)
      :: var id :| Agreed(forks, slot, id); id
  }

  function Conflicted(forks: set<StateMap>): ConflictedState {
    map slot | slot in Slots(forks) && |Candidates(forks, slot)| > 1 :: Candidates(forks, slot)
  }

  /** The flattened set of every disputed event. */
  function ConflictingEventIds(conflicted: ConflictedState): (ids: set<EventId>)
    ensures forall id :: id in ids <==> exists slot :: slot in conflicted && id in conflicted[slot]
  {
    set slot, id | slot in conflicted && id in conflicted[slot] :: id
  }

  lemma CandidatesSize(forks: set<StateMap>, slot: Slot)
    requires slot in Slots(forks)
    ensures |Candidates(forks, slot)| > 0
    ensures |Candidates(forks, slot)| == 1 <==> exists id :: Agreed(forks, slot, id)
  {
    var fork :| fork in forks && slot in fork;
    assert fork[slot] in Candidates(forks, slot);
    if |Candidates(forks, slot)| == 1 {
      SingletonSet(Candidates(forks, slot), fork[slot]);
      assert Agreed(forks, slot, fork[slot]);
    }
  }

  lemma SingletonSet<T>(s: set<T>, x: T)
    requires |s| == 1 && x in s
    ensures s == {x}
  {
    assert |s - {x}| == 0;
  }

  /** Every slot some fork assigns is agreed or disputed, never both. */
  lemma PartitionCovers(forks: set<StateMap>)
    ensures Unconflicted(forks).Keys + Conflicted(forks).Keys == Slots(forks)
    ensures Unconflicted(forks).Keys !! Conflicted(forks).Keys
  {
    forall slot ensures slot in Unconflicted(forks) || slot in Conflicted(forks) <==> slot in Slots(forks)
                ensures !(slot in Unconflicted(forks) && slot in Conflicted(forks))
    {
      if slot in Slots(forks) {
        CandidatesSize(forks, slot);
      }
    }
  }

  ghost predicate GroupedBy(grouped: ConflictedState, forks: set<StateMap>) {
    && grouped.Keys == Slots(forks)
    && forall slot | slot in grouped :: grouped[slot] == Candidates(forks, slot)
  }

  function At(grouped: ConflictedState, slot: Slot): set<EventId> {
    if slot in grouped then grouped[slot] else {}
  }

  method AddFork(fork: StateMap, before: ConflictedState) returns (grouped: ConflictedState)
    ensures grouped.Keys == before.Keys + fork.Keys
    ensures forall slot | slot in grouped ::
              grouped[slot] == At(before, slot) + if slot in fork then {fork[slot]} else {}
  {
    grouped := before;
    var rest := fork.Keys;
    while rest != {}
      invariant rest <= fork.Keys
      invariant grouped.Keys == before.Keys + (fork.Keys - rest)
      invariant forall slot | slot in grouped ::
                  grouped[slot] == At(before, slot) + if slot in fork && slot !in rest then {fork[slot]} else {}
    {
      var slot :| slot in rest;
      grouped := grouped[slot := At(grouped, slot) + {fork[slot]}];
      rest := rest - {slot};
    }
  }

  lemma CandidatesStep(forks: set<StateMap>, fork: StateMap, slot: Slot)
    ensures Candidates(forks + {fork}, slot) == Candidates(forks, slot) + if slot in fork then {fork[slot]} else {}
    ensures slot in Slots(forks + {fork}) <==> slot in Slots(forks) || slot in fork
    ensures slot !in Slots(forks) ==> Candidates(forks, slot) == {}
  {
    assert forall f | f in forks && slot in f :: slot in Slots(forks);
  }

  lemma GroupedAt(fork: StateMap, before: ConflictedState, forks: set<StateMap>, slot: Slot)
    requires GroupedBy(before, forks)
    ensures slot in Slots(forks + {fork}) <==> slot in before || slot in fork
    ensures Candidates(forks + {fork}, slot) == At(before, slot) + if slot in fork then {fork[slot]} else {}
  {
    CandidatesStep(forks, fork, slot);
  }

  lemma GroupedStep(fork: StateMap, before: ConflictedState, after: ConflictedState, forks: set<StateMap>)
    requires GroupedBy(before, forks)
    requires after.Keys == before.Keys + fork.Keys
    requires forall slot | slot in after ::
               after[slot] == At(before, slot) + if slot in fork then {fork[slot]} else {}
    ensures GroupedBy(after, forks + {fork})
  {
    assert after.Keys == Slots(forks + {fork}) by {
      forall slot ensures slot in after <==> slot in Slots(forks + {fork}) {
        GroupedAt(fork, before, forks, slot);
      }
    }
    forall slot | slot in after ensures after[slot] == Candidates(forks + {fork}, slot) {
      GroupedAt(fork, before, forks, slot);
    }
  }

  /** The agreed and the disputed slots depend only on which forks there are. */
  method Partition(states: seq<StateMap>) returns (unconflicted: StateMap, conflicted: ConflictedState)
    ensures unconflicted == Unconflicted(Elements(states))
    ensures conflicted == Conflicted(Elements(states))
  {
    ghost var forks := Elements(states);
    var grouped: ConflictedState := map[];
    for i := 0 to |states|
      invariant GroupedBy(grouped, Elements(states[..i]))
    {
      assert Elements(states[..i + 1]) == Elements(states[..i]) + {states[i]};
      var next := AddFork(states[i], grouped);
      GroupedStep(states[i], grouped, next, Elements(states[..i]));
      grouped := next;
    }
    assert states[..|states|] == states;

    unconflicted, conflicted := map[], map[];
    var rest := grouped.Keys;
    while rest != {}
      invariant rest <= grouped.Keys == Slots(forks)
      invariant forall slot :: slot in unconflicted <==> slot in grouped && slot !in rest && |grouped[slot]| == 1
      invariant forall slot :: slot in conflicted <==> slot in grouped && slot !in rest && |grouped[slot]| != 1
      invariant forall slot | slot in unconflicted :: grouped[slot] == {unconflicted[slot]}
      invariant forall slot | slot in conflicted :: conflicted[slot] == grouped[slot]
    {
      var slot :| slot in rest;
      if |grouped[slot]| == 1 {
        CandidatesSize(forks, slot);
        var id :| id in grouped[slot];
        SingletonSet(grouped[slot], id);
        unconflicted := unconflicted[slot := id];
      } else {
        conflicted := conflicted[slot := grouped[slot]];
      }
      rest := rest - {slot};
    }
    AgreedSlots(forks, grouped, unconflicted);
    DisputedSlots(forks, grouped, conflicted);
  }

  lemma AgreedSlots(forks: set<StateMap>, grouped: ConflictedState, unconflicted: StateMap)
    requires GroupedBy(grouped, forks)
    requires forall slot :: slot in unconflicted <==> slot in grouped && |grouped[slot]| == 1
    requires forall slot | slot in unconflicted :: grouped[slot] == {unconflicted[slot]}
    ensures unconflicted == Unconflicted(forks)
  {
    var agreed := Unconflicted(forks);
    forall slot ensures slot in unconflicted <==> slot in agreed {
      if slot in Slots(forks) {
        CandidatesSize(forks, slot);
      }
    }
    forall slot | slot in unconflicted ensures unconflicted[slot] == agreed[slot] {
      assert Agreed(forks, slot, agreed[slot]);
      assert unconflicted[slot] in {agreed[slot]};
    }
  }

  lemma DisputedSlots(forks: set<StateMap>, grouped: ConflictedState, conflicted: ConflictedState)
    requires GroupedBy(grouped, forks)
    requires forall slot :: slot in conflicted <==> slot in grouped && |grouped[slot]| != 1
    requires forall slot | slot in conflicted :: conflicted[slot] == grouped[slot]
    ensures conflicted == Conflicted(forks)
  {
    forall slot ensures slot in conflicted <==> slot in Conflicted(forks) {
      if slot in Slots(forks) {
        CandidatesSize(forks, slot);
      }
    }
  }

  // ---------------------------------------------------------------- auth difference

  /** The ids that appear in some auth chain but not in all of them. */
  function AuthDifference(chains: set<set<EventId>>): (ids: set<EventId>)
    ensures forall id :: id in ids <==> (exists c :: c in chains && id in c) && (exists c :: c in chains && id !in c)
  {
    set c, id | c in chains && id in c && (exists d :: d in chains && id !in d) :: id
  }

  method ComputeAuthDifference(chains: seq<set<EventId>>) returns (ids: set<EventId>)
    ensures ids == AuthDifference(Elements(chains))
  {
    if chains == [] {
      return {};
    }
    var union, intersection := chains[0], chains[0];
    for i := 1 to |chains|
      invariant forall id :: id in union <==> exists k :: 0 <= k < i && id in chains[k]
      invariant forall id :: id in intersection <==> forall k | 0 <= k < i :: id in chains[k]
    {
      union := union + chains[i];
      intersection := intersection * chains[i];
    }
    ids := union - intersection;
    forall id ensures id in ids <==> id in AuthDifference(Elements(chains)) {
      if exists k :: 0 <= k < |chains| && id in chains[k] {
        var k :| 0 <= k < |chains| && id in chains[k];
        assert chains[k] in Elements(chains);
      }
      if exists k :: 0 <= k < |chains| && id !in chains[k] {
        var k :| 0 <= k < |chains| && id !in chains[k];
        assert chains[k] in Elements(chains);
      }
    }
  }
}
