/** Resolution reads only the auth-closed neighbourhood of what it is given, so servers that store
    different events beyond it still converge. */
module Locality {
  import opened Basics
  import opened RoomEvents
  import opened AuthRules
  import opened Forks
  import opened StateCache
  import opened Resolution
  import PowerSort
  import MainlineOrder

  /** Both stores hold the same events for the ids of `region`. */
  ghost predicate SameOn(region: set<EventId>, s: EventStore, t: EventStore) {
    forall id | id in region :: (id in s <==> id in t) && (id in s ==> s[id] == t[id])
  }

  ghost predicate AuthClosed(region: set<EventId>, s: EventStore) {
    forall id, a | id in region && id in s && a in s[id].auth :: a in region
  }

  /** The state holds only ids of `region`. */
  ghost predicate Inside(state: StateMap, region: set<EventId>) {
    forall slot | slot in state :: state[slot] in region
  }

  // ---------------------------------------------------------------- the rules and the fold

  /** The rules judge alike over both stores. */
  ghost predicate Local(rules: Rules, region: set<EventId>, s: EventStore, t: EventStore) {
    forall event, state | Inside(state, region) :: rules(event, state, s) <==> rules(event, state, t)
  }

  lemma RoomRulesLocal(region: set<EventId>, s: EventStore, t: EventStore)
    requires SameOn(region, s, t)
    ensures Local(RoomRules, region, s, t)
  {
    forall event, state | Inside(state, region) ensures RoomRules(event, state, s) <==> RoomRules(event, state, t) {
      RoomRulesAgree(event, state, region, s, t);
    }
  }

  /** What the rules look up in a state does not depend on the store. */
  lemma LookupsAgree(state: StateMap, user: UserId, region: set<EventId>, s: EventStore, t: EventStore)
    requires SameOn(region, s, t) && Inside(state, region)
    ensures CurrentLevels(state, s) == CurrentLevels(state, t)
    ensures CurrentJoinRule(state, s) == CurrentJoinRule(state, t)
    ensures Creator(state, s) == Creator(state, t)
    ensures MembershipOf(user, state, s) == MembershipOf(user, state, t)
  {
  }

  lemma MembershipRulesAgree(event: Event, state: StateMap, region: set<EventId>, s: EventStore, t: EventStore)
    requires SameOn(region, s, t) && Inside(state, region)
    ensures MembershipRules(event, state, s) <==> MembershipRules(event, state, t)
  {
    LookupsAgree(state, event.sender, region, s, t);
    LookupsAgree(state, event.stateKey, region, s, t);
    if event.authorisedVia.Some? {
      LookupsAgree(state, event.authorisedVia.value, region, s, t);
    }
  }

  lemma RoomRulesAgree(event: Event, state: StateMap, region: set<EventId>, s: EventStore, t: EventStore)
    requires SameOn(region, s, t) && Inside(state, region)
    ensures RoomRules(event, state, s) <==> RoomRules(event, state, t)
  {
    RoomRulesAreAllFour(event, state, s);
    RoomRulesAreAllFour(event, state, t);
    LookupsAgree(state, event.sender, region, s, t);
    MembershipRulesAgree(event, state, region, s, t);
  }

  lemma {:induction false} FoldLocal(ids: seq<EventId>, base: StateMap, region: set<EventId>, s: EventStore, t: EventStore, rules: Rules)
    requires SameOn(region, s, t) && Local(rules, region, s, t)
    requires Inside(base, region) && forall id | id in ids :: id in region
    ensures Fold(ids, base, s, rules) == Fold(ids, base, t, rules)
    ensures Inside(Fold(ids, base, s, rules), region)
  {
    if ids != [] {
      FoldLocal(ids[..|ids| - 1], base, region, s, t, rules);
    }
  }

  // ---------------------------------------------------------------- the power order

  lemma NextLocal(id: EventId, todo: set<EventId>, region: set<EventId>, s: EventStore, t: EventStore)
    requires SameOn(region, s, t) && todo <= region && todo <= s.Keys && todo <= t.Keys
    ensures PowerSort.Available(todo, s) == PowerSort.Available(todo, t)
    ensures PowerSort.IsNext(id, todo, s) <==> PowerSort.IsNext(id, todo, t)
  {
    assert forall c | c in todo :: PowerSort.Deps(c, todo, s) == PowerSort.Deps(c, todo, t);
    assert forall c | c in todo :: PowerSort.KeyOf(c, s) == PowerSort.KeyOf(c, t);
  }

  lemma PowerOrderLocal(present: set<EventId>, region: set<EventId>, s: EventStore, t: EventStore)
    requires SameOn(region, s, t) && present <= region && present <= s.Keys && present <= t.Keys
    ensures PowerSort.PowerOrder(present, s) == PowerSort.PowerOrder(present, t)
  {
    var out := PowerSort.PowerOrder(present, s);
    forall k | 0 <= k < |out| ensures PowerSort.IsNext(out[k], PowerSort.Todo(out[..k], present), t) {
      NextLocal(out[k], PowerSort.Todo(out[..k], present), region, s, t);
    }
    NextLocal([], PowerSort.Todo(out, present), region, s, t);
    assert PowerSort.IsPowerOrder(out, present, t);
    PowerSort.PowerOrderUnique(out, PowerSort.PowerOrder(present, t), present, t);
  }

  // ---------------------------------------------------------------- the mainline order

  lemma {:induction false} FirstPowerLevelsLocal(auth: seq<EventId>, region: set<EventId>, s: EventStore, t: EventStore)
    requires SameOn(region, s, t) && forall a | a in auth :: a in region
    ensures MainlineOrder.FirstPowerLevels(auth, s) == MainlineOrder.FirstPowerLevels(auth, t)
  {
    if auth != [] {
      FirstPowerLevelsLocal(auth[1..], region, s, t);
    }
  }

  lemma LinkLocal(id: EventId, region: set<EventId>, s: EventStore, t: EventStore)
    requires SameOn(region, s, t) && AuthClosed(region, s) && id in region
    ensures MainlineOrder.PowerLevelsInAuth(id, s) == MainlineOrder.PowerLevelsInAuth(id, t)
    ensures MainlineOrder.PowerLevelsInAuth(id, s).Some? ==> MainlineOrder.PowerLevelsInAuth(id, s).value in region
  {
    if id in s {
      FirstPowerLevelsLocal(s[id].auth, region, s, t);
      MainlineOrder.FirstPowerLevelsIsAuth(s[id].auth, s);
    }
  }

  lemma {:induction false} ChainLocal(id: EventId, region: set<EventId>, s: EventStore, t: EventStore)
    requires MainlineOrder.LinksAcyclic(s) && MainlineOrder.LinksAcyclic(t)
    requires SameOn(region, s, t) && AuthClosed(region, s) && id in region
    ensures MainlineOrder.Chain(id, s) == MainlineOrder.Chain(id, t)
    decreases MainlineOrder.Height(id, s)
  {
    LinkLocal(id, region, s, t);
    var link := MainlineOrder.PowerLevelsInAuth(id, s);
    if link.Some? {
      MainlineOrder.LinkDescends(id, s);
      ChainLocal(link.value, region, s, t);
    }
  }

  lemma KeyLocal(id: EventId, resolved: Option<EventId>, region: set<EventId>, s: EventStore, t: EventStore)
    requires MainlineOrder.LinksAcyclic(s) && MainlineOrder.LinksAcyclic(t)
    requires SameOn(region, s, t) && AuthClosed(region, s) && id in region
    requires resolved.Some? ==> resolved.value in region
    ensures MainlineOrder.KeyFor(id, resolved, s) == MainlineOrder.KeyFor(id, resolved, t)
  {
    ChainLocal(id, region, s, t);
    if resolved.Some? {
      ChainLocal(resolved.value, region, s, t);
    }
    assert MainlineOrder.Mainline(resolved, s) == MainlineOrder.Mainline(resolved, t);
  }

  lemma MainlineOrderLocal(toOrder: set<EventId>, resolved: Option<EventId>, region: set<EventId>, s: EventStore, t: EventStore)
    requires MainlineOrder.LinksAcyclic(s) && MainlineOrder.LinksAcyclic(t)
    requires SameOn(region, s, t) && AuthClosed(region, s) && toOrder <= region
    requires resolved.Some? ==> resolved.value in region
    ensures MainlineOrder.OrderOf(toOrder, resolved, s) == MainlineOrder.OrderOf(toOrder, resolved, t)
  {
    var out := MainlineOrder.OrderOf(toOrder, resolved, s);
    OrderMembers(out, toOrder);
    forall i, j | 0 <= i < j < |out|
      ensures !MainlineOrder.Before(MainlineOrder.KeyFor(out[j], resolved, t), MainlineOrder.KeyFor(out[i], resolved, t))
    {
      assert out[i] in Elements(out) && out[j] in Elements(out);
      KeyLocal(out[i], resolved, region, s, t);
      KeyLocal(out[j], resolved, region, s, t);
    }
    MainlineOrder.MainlineOrderUnique(out, MainlineOrder.OrderOf(toOrder, resolved, t), multiset(toOrder), resolved, t);
  }

  // ---------------------------------------------------------------- resolution

  lemma WorkingLocal(agreed: StateMap, full: set<EventId>, region: set<EventId>, s: EventStore, t: EventStore, rules: Rules)
    requires MainlineOrder.LinksAcyclic(s) && MainlineOrder.LinksAcyclic(t)
    requires SameOn(region, s, t) && AuthClosed(region, s) && Local(rules, region, s, t)
    requires Inside(agreed, region) && full <= region
    ensures WorkingState(agreed, full, s, rules) == WorkingState(agreed, full, t, rules)
  {
    var controlSet, othersSet := ControlOf(full, s), OthersOf(full, s);
    assert controlSet == ControlOf(full, t) && othersSet == OthersOf(full, t);
    PowerOrderLocal(controlSet, region, s, t);
    ControlOrderMembers(full, s);
    var control := PowerSort.PowerOrder(controlSet, s);
    FoldLocal(control, agreed, region, s, t, rules);
    var partial := Fold(control, agreed, s, rules);
    var levels := PowerLevelsEvent(partial);
    MainlineOrderLocal(othersSet, levels, region, s, t);
    var others := MainlineOrder.OrderOf(othersSet, levels, s);
    OrderMembers(others, othersSet);
    forall id | id in control + others ensures id in region {
      assert id in control || id in Elements(others);
    }
    FoldLocal(control + others, agreed, region, s, t, rules);
  }

  /** Everything the forks and the auth chains mention lies in `region`. */
  ghost predicate Covers(region: set<EventId>, forks: set<StateMap>, chains: set<set<EventId>>) {
    (forall fork | fork in forks :: Inside(fork, region)) && forall chain | chain in chains :: chain <= region
  }

  lemma CoversParts(region: set<EventId>, forks: set<StateMap>, chains: set<set<EventId>>)
    requires Covers(region, forks, chains)
    ensures Inside(Unconflicted(forks), region)
    ensures FullSet(forks, chains) <= region
  {
    var agreed := Unconflicted(forks);
    forall slot | slot in agreed ensures agreed[slot] in region {
      assert Agreed(forks, slot, agreed[slot]);
      CandidatesInside(region, forks, chains, slot);
    }
    forall id | id in Disputed(forks) ensures id in region {
      var slot :| slot in Conflicted(forks) && id in Conflicted(forks)[slot];
      CandidatesInside(region, forks, chains, slot);
    }
    forall id | id in AuthDifference(chains) ensures id in region {
      var chain :| chain in chains && id in chain;
    }
  }

  lemma CandidatesInside(region: set<EventId>, forks: set<StateMap>, chains: set<set<EventId>>, slot: Slot)
    requires Covers(region, forks, chains)
    ensures Candidates(forks, slot) <= region
  {
  }

  lemma ResolvedFromWorking(forks: set<StateMap>, chains: set<set<EventId>>, s: EventStore, t: EventStore, rules: Rules)
    requires MainlineOrder.LinksAcyclic(s) && MainlineOrder.LinksAcyclic(t)
    requires WorkingState(Unconflicted(forks), FullSet(forks, chains), s, rules)
          == WorkingState(Unconflicted(forks), FullSet(forks, chains), t, rules)
    ensures Resolved(forks, chains, s, rules) == Resolved(forks, chains, t, rules)
  {
  }

  /** Two stores that agree on an auth-closed region holding the ids of the forks and chains resolve
      alike, whatever else they hold. */
  lemma ResolvedLocal(forks: set<StateMap>, chains: set<set<EventId>>, region: set<EventId>, s: EventStore, t: EventStore, rules: Rules)
    requires MainlineOrder.LinksAcyclic(s) && MainlineOrder.LinksAcyclic(t)
    requires SameOn(region, s, t) && AuthClosed(region, s) && Local(rules, region, s, t)
    requires Covers(region, forks, chains)
    ensures Resolved(forks, chains, s, rules) == Resolved(forks, chains, t, rules)
  {
    CoversParts(region, forks, chains);
    WorkingLocal(Unconflicted(forks), FullSet(forks, chains), region, s, t, rules);
    ResolvedFromWorking(forks, chains, s, t, rules);
  }

  /** Two servers with different stores, the same forks and auth chains in any order and with any
      repetition, and caches of any capacity, compute the same state under the room rules. */
  method ConvergeAcrossStores(forks: seq<StateMap>, forks': seq<StateMap>, chains: seq<set<EventId>>, chains': seq<set<EventId>>,
                              s: EventStore, t: EventStore, ghost region: set<EventId>, capacity: nat, capacity': nat)
    returns (a: StateMap, b: StateMap)
    requires KeyedById(s) && KeyedById(t)
    requires MainlineOrder.LinksAcyclic(s) && MainlineOrder.LinksAcyclic(t)
    requires Elements(forks) == Elements(forks') && Elements(chains) == Elements(chains')
    requires SameOn(region, s, t) && AuthClosed(region, s) && Covers(region, Elements(forks), Elements(chains))
    ensures a == b == Resolved(Elements(forks), Elements(chains), s, RoomRules)
  {
    var cache := new ResolvedStateCache(capacity);
    var cache' := new ResolvedStateCache(capacity');
    a := Resolve(forks, chains, s, RoomRules, cache);
    b := Resolve(forks', chains', t, RoomRules, cache');
    RoomRulesLocal(region, s, t);
    ResolvedLocal(Elements(forks), Elements(chains), region, s, t, RoomRules);
  }
}
