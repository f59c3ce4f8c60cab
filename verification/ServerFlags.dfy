/** Concurrent restart and shutdown requests over two atomic flags.

    Each swap, load and store is one atomic step; any number of calls interleave in any order. */
module ServerFlags {

  type CallId = nat

  datatype Kind = Restart | Shutdown

  /** How far a call has got. */
  datatype Phase =
    | Called(kind: Kind)
    | Claimed                  // a restart that set `restarting` and goes on to shut down
    | Signalling(kind: Kind)   // the call that set `stopping`, about to send the signal
    | Undoing                  // a restart whose shutdown was refused, about to clear `restarting`
    | Succeeded(kind: Kind)
    | Rejected(kind: Kind)

  datatype State = State(restarting: bool, stopping: bool, calls: map<CallId, Phase>)

  const INITIAL := State(false, false, map[])

  /** One atomic step of call `c`. */
  function Advance(s: State, c: CallId): State {
    if c !in s.calls then s
    else
      match s.calls[c]
      case Called(Restart) =>
        s.(restarting := true, calls := s.calls[c := if s.restarting then Rejected(Restart) else Claimed])
      case Called(Shutdown) =>
        s.(stopping := true, calls := s.calls[c := if s.stopping then Rejected(Shutdown) else Signalling(Shutdown)])
      case Claimed =>
        s.(stopping := true, calls := s.calls[c := if s.stopping then Undoing else Signalling(Restart)])
      case Signalling(kind) => s.(calls := s.calls[c := Succeeded(kind)])
      case Undoing => s.(restarting := false, calls := s.calls[c := Rejected(Restart)])
      case Succeeded(_) => s
      case Rejected(_) => s
  }

  datatype Event = Begin(call: CallId, kind: Kind) | Step(call: CallId)

  function Next(s: State, e: Event): State {
    match e
    case Begin(c, kind) => if c in s.calls then s else s.(calls := s.calls[c := Called(kind)])
    case Step(c) => Advance(s, c)
  }

  function Run(events: seq<Event>): State {
    if events == [] then INITIAL else Next(Run(events[..|events| - 1]), events[|events| - 1])
  }

  // ---------------------------------------------------------------- invariant

  /** Calls that keep `restarting` set. */
  predicate Holds(phase: Phase) {
    phase in {Claimed, Undoing, Signalling(Restart), Succeeded(Restart)}
  }

  /** The call that set `stopping`. */
  predicate Wins(phase: Phase) {
    phase.Signalling? || phase.Succeeded?
  }

  predicate Refused(phase: Phase) {
    phase.Undoing? || phase.Rejected?
  }

  ghost function Holders(s: State): set<CallId> { set c | c in s.calls && Holds(s.calls[c]) }

  ghost function Winners(s: State): set<CallId> { set c | c in s.calls && Wins(s.calls[c]) }

  ghost function Refusals(s: State): set<CallId> { set c | c in s.calls && Refused(s.calls[c]) }

  ghost function Undoers(s: State): set<CallId> { set c | c in s.calls && s.calls[c].Undoing? }

  /** The flag is set exactly when the group has a member, and then has only one. */
  ghost predicate Guards(flag: bool, group: set<CallId>) {
    if flag then exists c :: group == {c} else group == {}
  }

  ghost predicate Inv(s: State) {
    && Guards(s.restarting, Holders(s))
    && Guards(s.stopping, Winners(s))
    && (Undoers(s) != {} ==> s.stopping)
    && (Refusals(s) != {} ==> s.stopping || s.restarting)
  }

  /** The groups once call `c` is in `phase`. */
  lemma GroupsAfter(s: State, t: State, c: CallId, phase: Phase)
    requires t.calls == s.calls[c := phase]
    ensures Holders(t) == Holders(s) - {c} + if Holds(phase) then {c} else {}
    ensures Winners(t) == Winners(s) - {c} + if Wins(phase) then {c} else {}
    ensures Undoers(t) == Undoers(s) - {c} + if phase.Undoing? then {c} else {}
    ensures Refusals(t) == Refusals(s) - {c} + if Refused(phase) then {c} else {}
  {
  }

  lemma Alone(c: CallId, group: set<CallId>, flag: bool)
    requires Guards(flag, group) && c in group
    ensures flag && group == {c}
  {
  }

  lemma AdvanceKeeps(s: State, c: CallId)
    requires Inv(s) && c in s.calls
    ensures Inv(Advance(s, c))
  {
    var t := Advance(s, c);
    if t != s {
      GroupsAfter(s, t, c, t.calls[c]);
      if Holds(s.calls[c]) {
        Alone(c, Holders(s), s.restarting);
      }
      if Wins(s.calls[c]) {
        Alone(c, Winners(s), s.stopping);
      }
      if s.calls[c].Undoing? {
        assert c in Undoers(s);
      }
      assert c !in Holders(s) ==> Holders(s) - {c} == Holders(s);
      assert c !in Winners(s) ==> Winners(s) - {c} == Winners(s);
    }
  }

  lemma NextKeeps(s: State, e: Event)
    requires Inv(s)
    ensures Inv(Next(s, e))
  {
    match e
    case Begin(c, kind) =>
      if c !in s.calls {
        GroupsAfter(s, Next(s, e), c, Called(kind));
        assert Holders(Next(s, e)) == Holders(s) && Winners(Next(s, e)) == Winners(s);
      }
    case Step(c) =>
      if c in s.calls {
        AdvanceKeeps(s, c);
      }
  }

  lemma {:induction false} RunInv(events: seq<Event>)
    ensures Inv(Run(events))
  {
    if events != [] {
      RunInv(events[..|events| - 1]);
      NextKeeps(Run(events[..|events| - 1]), events[|events| - 1]);
    }
  }

  // ---------------------------------------------------------------- what callers see

  /** However calls interleave, at most one ever succeeds. */
  lemma AtMostOneSucceeds(events: seq<Event>, c: CallId, d: CallId)
    requires c in Run(events).calls && Run(events).calls[c].Succeeded?
    requires d in Run(events).calls && Run(events).calls[d].Succeeded?
    ensures c == d
  {
    RunInv(events);
    var s := Run(events);
    assert c in Winners(s) && d in Winners(s);
    Alone(c, Winners(s), s.stopping);
  }

  /** No call is between its first and last step. */
  ghost predicate Quiescent(s: State) {
    forall c | c in s.calls :: s.calls[c].Succeeded? || s.calls[c].Rejected?
  }

  /** Once no call is in progress, `restarting` is set exactly when the successful call was a restart,
      `stopping` exactly when there is one, and if anyone called there is one. */
  lemma QuiescentFlags(events: seq<Event>)
    requires Quiescent(Run(events))
    ensures var s := Run(events);
            && (s.restarting <==> exists c :: c in s.calls && s.calls[c] == Succeeded(Restart))
            && (s.stopping <==> exists c :: c in s.calls && s.calls[c].Succeeded?)
            && (s.calls != map[] ==> exists c :: c in s.calls && s.calls[c].Succeeded?)
  {
    RunInv(events);
    var s := Run(events);
    if s.restarting {
      var h :| Holders(s) == {h};
      assert h in Holders(s);
    }
    if s.stopping {
      var w :| Winners(s) == {w};
      assert w in Winners(s);
    }
    forall c | c in s.calls
      ensures s.calls[c] == Succeeded(Restart) ==> s.restarting
      ensures s.calls[c].Succeeded? ==> s.stopping
      ensures s.stopping || s.restarting
    {
      assert Holds(s.calls[c]) <==> c in Holders(s);
      assert Wins(s.calls[c]) <==> c in Winners(s);
      assert Refused(s.calls[c]) <==> c in Refusals(s);
    }
    if s.calls != map[] {
      var c :| c in s.calls;
      assert s.stopping || s.restarting;
    }
  }

  // ---------------------------------------------------------------- the calls themselves

  /** A call that runs without interruption. */
  function Complete(s: State, c: CallId): State {
    Advance(Advance(Advance(s, c), c), c)
  }

  class Server {
    var restarting: bool
    var stopping: bool

    constructor ()
      ensures !restarting && !stopping
    {
      restarting, stopping := false, false;
    }

    ghost function With(kind: Kind): State
      reads this
    {
      State(restarting, stopping, map[0 := Called(kind)])
    }

    method RequestShutdown() returns (ok: bool)
      modifies `stopping
      ensures var t := Complete(old(With(Shutdown)), 0);
              stopping == t.stopping && restarting == t.restarting && ok == t.calls[0].Succeeded?
    {
      var was := stopping;
      stopping := true;
      ok := !was;
    }

    method RequestRestart() returns (ok: bool)
      modifies this
      ensures var t := Complete(old(With(Restart)), 0);
              stopping == t.stopping && restarting == t.restarting && ok == t.calls[0].Succeeded?
    {
      var was := restarting;
      restarting := true;
      if was {
        return false;
      }
      ok := RequestShutdown();
      if !ok {
        restarting := false;
      }
    }
  }
}
