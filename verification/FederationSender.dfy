/** The federation sender: one queue and one retry gate for each destination server. */
module FederationSender {
  import opened Basics
  import opened ByteOrder

  type Destination = Bytes

  type Payload = Bytes

  const U32_MAX: nat := 0xFFFF_FFFF
  const U64_MAX: nat := 0xFFFF_FFFF_FFFF_FFFF

  type U32 = n: nat | n <= U32_MAX
  type U64 = n: nat | n <= U64_MAX

  const BASE_BACKOFF_MS: nat := 1_000
  const CAP_BACKOFF_MS: nat := 60_000

  function Min(a: nat, b: nat): nat { if a < b then a else b }

  function SaturatingAdd(a: U64, b: nat): U64 { Min(a + b, U64_MAX) }

  /** The delay the code computes: a shift of at most 16, scaled and capped. */
  function BackoffDelay(attempt: U32): nat {
    Min(BASE_BACKOFF_MS * Power2(Min(if attempt == 0 then 0 else attempt - 1, 16)), CAP_BACKOFF_MS)
  }

  datatype Backoff = Backoff(attempt: U32, availableAt: U64)

  datatype State = State(queues: map<Destination, seq<Payload>>, backoff: map<Destination, Backoff>)

  const EMPTY := State(map[], map[])

  function Pending(s: State, d: Destination): seq<Payload> {
    if d in s.queues then s.queues[d] else []
  }

  function AvailableAt(s: State, d: Destination): U64 {
    if d in s.backoff then s.backoff[d].availableAt else 0
  }

  function Attempts(s: State, d: Destination): U32 {
    if d in s.backoff then s.backoff[d].attempt else 0
  }

  predicate IsReady(s: State, d: Destination, now: U64) {
    Pending(s, d) != [] && now >= AvailableAt(s, d)
  }

  datatype Op =
    | Queue(destination: Destination, item: Payload)
    | Take(destination: Destination)
    | Success(destination: Destination)
    | Failure(destination: Destination, now: U64)

  function Queued(s: State, d: Destination, item: Payload): State {
    s.(queues := s.queues[d := Pending(s, d) + [item]])
  }

  function Taken(s: State, d: Destination): State {
    s.(queues := s.queues - {d})
  }

  function Succeeded(s: State, d: Destination): State {
    s.(backoff := s.backoff - {d})
  }

  function Failed(s: State, d: Destination, now: U64): State {
    var attempt := Min(Attempts(s, d) + 1, U32_MAX);
    s.(backoff := s.backoff[d := Backoff(attempt, SaturatingAdd(now, BackoffDelay(attempt)))])
  }

  function Apply(s: State, op: Op): State {
    match op
    case Queue(d, item) => Queued(s, d, item)
    case Take(d) => Taken(s, d)
    case Success(d) => Succeeded(s, d)
    case Failure(d, now) => Failed(s, d, now)
  }

  function Run(ops: seq<Op>): State {
    if ops == [] then EMPTY else Apply(Run(ops[..|ops| - 1]), ops[|ops| - 1])
  }

  // ---------------------------------------------------------------- histories

  /** The items ever queued for `d`, in order. */
  ghost function AllQueued(ops: seq<Op>, d: Destination): seq<Payload> {
    if ops == [] then []
    else
      var last := ops[|ops| - 1];
      AllQueued(ops[..|ops| - 1], d) + if last.Queue? && last.destination == d then [last.item] else []
  }

  /** The batches taken for `d`, end to end. */
  ghost function AllTaken(ops: seq<Op>, d: Destination): seq<Payload> {
    if ops == [] then []
    else
      var last, before := ops[|ops| - 1], ops[..|ops| - 1];
      AllTaken(before, d) + if last.Take? && last.destination == d then Pending(Run(before), d) else []
  }

  /** The failures of `d` since its last success. */
  ghost function FailuresSince(ops: seq<Op>, d: Destination): nat {
    if ops == [] then 0
    else
      var last, before := ops[|ops| - 1], FailuresSince(ops[..|ops| - 1], d);
      if last.destination != d then before
      else if last.Failure? then before + 1
      else if last.Success? then 0
      else before
  }

  /** When `d` last failed. */
  ghost function LastFailure(ops: seq<Op>, d: Destination): U64 {
    if ops == [] then 0
    else
      var last := ops[|ops| - 1];
      if last.Failure? && last.destination == d then last.now else LastFailure(ops[..|ops| - 1], d)
  }

  /** Nothing is lost, repeated or reordered: what was taken followed by what is pending is what was
      queued. */
  lemma {:induction false} Conservation(ops: seq<Op>, d: Destination)
    ensures AllTaken(ops, d) + Pending(Run(ops), d) == AllQueued(ops, d)
  {
    if ops != [] {
      Conservation(ops[..|ops| - 1], d);
    }
  }

  /** An operation on one destination changes nothing about another. */
  lemma Isolation(s: State, op: Op, d: Destination)
    requires op.destination != d
    ensures Pending(Apply(s, op), d) == Pending(s, d)
    ensures AvailableAt(Apply(s, op), d) == AvailableAt(s, d)
    ensures Attempts(Apply(s, op), d) == Attempts(s, d)
  {
  }

  /** The operations of a run that concern `d`. */
  ghost function OnlyFor(ops: seq<Op>, d: Destination): seq<Op> {
    if ops == [] then []
    else OnlyFor(ops[..|ops| - 1], d) + if ops[|ops| - 1].destination == d then [ops[|ops| - 1]] else []
  }

  /** A destination fares as if it were the only one: no traffic or failure of another ever shows. */
  lemma {:induction false} NonInterference(ops: seq<Op>, d: Destination)
    ensures var all, own := Run(ops), Run(OnlyFor(ops, d));
            && Pending(all, d) == Pending(own, d)
            && AvailableAt(all, d) == AvailableAt(own, d)
            && Attempts(all, d) == Attempts(own, d)
  {
    if ops != [] {
      var before, last := ops[..|ops| - 1], ops[|ops| - 1];
      NonInterference(before, d);
      if last.destination == d {
        var own := OnlyFor(before, d);
        assert (own + [last])[..|own|] == own;
      } else {
        assert OnlyFor(ops, d) == OnlyFor(before, d);
        Isolation(Run(before), last, d);
      }
    }
  }

  /** The exponential schedule in milliseconds, without the code's cap on the shift: one second,
      doubled for each further failure, up to one minute. */
  ghost function Schedule(failures: nat): nat
    requires failures > 0
  {
    if failures == 1 then 1_000
    else if 2 * Schedule(failures - 1) < 60_000 then 2 * Schedule(failures - 1) else 60_000
  }

  lemma {:induction false} ScheduleIsPower(failures: nat)
    requires failures > 0
    ensures Schedule(failures) == Min(BASE_BACKOFF_MS * Power2(failures - 1), CAP_BACKOFF_MS)
  {
    if failures > 1 {
      ScheduleIsPower(failures - 1);
    }
  }

  lemma {:induction false} Power2Grows(j: nat, k: nat)
    requires j <= k
    ensures Power2(j) <= Power2(k)
    decreases k
  {
    if j < k {
      Power2Grows(j, k - 1);
    }
  }

  /** Neither the shift cap nor the saturating counter shows. */
  lemma DelayIsSchedule(failures: nat)
    requires failures > 0
    ensures BackoffDelay(if failures < 0xFFFF_FFFF then failures else 0xFFFF_FFFF) == Schedule(failures)
  {
    ScheduleIsPower(failures);
    if failures > 17 {
      assert Power2(6) == 64;
      Power2Grows(6, 16);
      Power2Grows(6, failures - 1);
    }
  }

  /** The gate after any run: open, or the last failure plus the schedule, up to the greatest time. */
  lemma {:induction false} BackoffHistory(ops: seq<Op>, d: Destination)
    ensures var failures := FailuresSince(ops, d);
            && Attempts(Run(ops), d) == (if failures < 0xFFFF_FFFF then failures else 0xFFFF_FFFF)
            && (failures == 0 ==> AvailableAt(Run(ops), d) == 0)
            && (failures > 0 ==>
                  var due := LastFailure(ops, d) + Schedule(failures);
                  AvailableAt(Run(ops), d) == if due < 0xFFFF_FFFF_FFFF_FFFF then due else 0xFFFF_FFFF_FFFF_FFFF)
  {
    if ops != [] {
      var before, last := ops[..|ops| - 1], ops[|ops| - 1];
      BackoffHistory(before, d);
      if last.destination != d {
        Isolation(Run(before), last, d);
      } else if last.Failure? {
        DelayIsSchedule(FailuresSince(ops, d));
      }
    }
  }

  /** After any run, a destination is ready exactly when it has pending items and either has not failed
      since its last success or the backoff since its last failure has elapsed; at the greatest time
      every backoff has. */
  lemma ReadyExactly(ops: seq<Op>, d: Destination, now: U64)
    ensures IsReady(Run(ops), d, now) <==>
            && Pending(Run(ops), d) != []
            && (|| FailuresSince(ops, d) == 0
                || now >= LastFailure(ops, d) + Schedule(FailuresSince(ops, d))
                || now == 0xFFFF_FFFF_FFFF_FFFF)
  {
    BackoffHistory(ops, d);
  }

  // ---------------------------------------------------------------- the sender

  /** `ready` lists, in order, the ready ones among the first `i` destinations. */
  ghost predicate Chosen(ready: seq<Destination>, all: seq<Destination>, i: nat, s: State, now: U64) {
    && i <= |all|
    && Increasing(ready)
    && forall d :: d in ready <==> d in all[..i] && IsReady(s, d, now)
  }

  lemma ChosenNext(ready: seq<Destination>, all: seq<Destination>, i: nat, s: State, now: U64)
    requires Increasing(all) && i < |all|
    requires Chosen(ready, all, i, s, now)
    ensures Chosen(if IsReady(s, all[i], now) then ready + [all[i]] else ready, all, i + 1, s, now)
  {
    assert all[..i + 1] == all[..i] + [all[i]];
    IncreasingNext(ready, all, i);
  }

  lemma ChosenAll(ready: seq<Destination>, all: seq<Destination>, s: State, now: U64)
    requires Chosen(ready, all, |all|, s, now)
    requires forall d :: d in all <==> d in s.queues
    ensures Increasing(ready) && forall d :: d in ready <==> IsReady(s, d, now)
  {
    assert all[..|all|] == all;
  }

  class Sender {
    var queues: map<Destination, seq<Payload>>
    var backoff: map<Destination, Backoff>

    ghost function Value(): State
      reads this
    {
      State(queues, backoff)
    }

    constructor ()
      ensures Value() == EMPTY
    {
      queues, backoff := map[], map[];
    }

    method QueueItem(d: Destination, item: Payload)
      modifies `queues
      ensures Value() == Queued(old(Value()), d, item)
    {
      var queue := if d in queues then queues[d] else [];
      queues := queues[d := queue + [item]];
    }

    method TakeAll(d: Destination) returns (items: seq<Payload>)
      modifies `queues
      ensures items == Pending(old(Value()), d)
      ensures Value() == Taken(old(Value()), d)
    {
      items := if d in queues then queues[d] else [];
      queues := queues - {d};
    }

    method MarkSuccess(d: Destination)
      modifies `backoff
      ensures Value() == Succeeded(old(Value()), d)
    {
      backoff := backoff - {d};
    }

    method MarkFailure(d: Destination, now: U64)
      modifies `backoff
      ensures Value() == Failed(old(Value()), d, now)
    {
      var state := if d in backoff then backoff[d] else Backoff(0, 0);
      var attempt := if state.attempt < U32_MAX then state.attempt + 1 else U32_MAX;
      backoff := backoff[d := Backoff(attempt, SaturatingAdd(now, BackoffDelay(attempt)))];
    }

    method Restore(d: Destination, attempt: U32, availableAt: U64)
      modifies `backoff
      ensures Value() == old(Value()).(backoff := old(backoff)[d := Backoff(attempt, availableAt)])
    {
      backoff := backoff[d := Backoff(attempt, availableAt)];
    }

    /** The ready destinations, in order. */
    method Ready(now: U64) returns (ready: seq<Destination>)
      ensures Increasing(ready)
      ensures forall d :: d in ready <==> IsReady(Value(), d, now)
    {
      var all := Ascending(queues.Keys);
      ghost var s := Value();
      ready := [];
      for i := 0 to |all|
        invariant Chosen(ready, all, i, s, now)
      {
        var d := all[i];
        ChosenNext(ready, all, i, s, now);
        if queues[d] != [] && now >= (if d in backoff then backoff[d].availableAt else 0) {
          ready := ready + [d];
        }
      }
      ChosenAll(ready, all, s, now);
    }
  }
}
