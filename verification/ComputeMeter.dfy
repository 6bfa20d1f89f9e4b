/** The atomic compute meter (pkg/svm/compute.go): Consume and ConsumeChecked as
    the loads, stores, compare-and-swaps and additions they are made of, interleaved
    between any number of threads. */
module ComputeMeter {
  import opened Bytes

  const CU_MAX: u64 := 1_400_000

  datatype Op = Consume(cost: u64) | ConsumeChecked(cost: u64)

  /** What a thread is about to do: nothing, compare-and-swap from the value it has
      loaded, store zero, or add what it was granted. */
  datatype Local =
    | Idle
    | Loading(op: Op)
    | Swapping(op: Op, seen: u64)
    | Zeroing(op: Op, seen: u64)
    | Adding(op: Op, amount: u64)

  /** What happens to a call of a thread: it begins, it is decided (granted an amount, or
      None for an error), and it returns. */
  datatype Mark =
    | Began(thread: nat, op: Op)
    | Decided(thread: nat, op: Op, granted: Option<u64>)
    | Returned(thread: nat, op: Op, granted: Option<u64>)

  /** The two shared fields, the threads, and two observations: what has happened, in
      order, and the amount discarded by stores of zero. */
  datatype State = State(remaining: u64, consumed: u64, threads: seq<Local>, trace: seq<Mark>, zeroed: nat)

  function Initial(limit: u64, n: nat): State {
    State(limit, 0, seq(n, _ => Idle), [], 0)
  }

  function Amount(op: Op, seen: u64): u64 {
    match op
    case Consume(cost) => cost
    case ConsumeChecked(cost) => if seen < cost then seen else cost
  }

  function AfterLoad(op: Op, seen: u64): Local {
    if op.Consume? && seen < op.cost then Zeroing(op, seen) else Swapping(op, seen)
  }

  /** Thread t takes its next atomic step; an idle one begins the given call. A swap
      never subtracts more than was loaded: AfterLoad has seen to that. */
  function Step(s: State, t: nat, next: Op): State
    requires t < |s.threads|
  {
    match s.threads[t]
    case Idle => s.(threads := s.threads[t := Loading(next)], trace := s.trace + [Began(t, next)])
    case Loading(op) => s.(threads := s.threads[t := AfterLoad(op, s.remaining)])
    case Zeroing(op, _) =>
      s.(remaining := 0, zeroed := s.zeroed + s.remaining, threads := s.threads[t := Idle],
         trace := s.trace + [Decided(t, op, None), Returned(t, op, None)])
    case Swapping(op, seen) =>
      var n := Amount(op, seen);
      if s.remaining == seen && n <= seen then
        s.(remaining := seen - n, threads := s.threads[t := Adding(op, n)],
          trace := s.trace + [Decided(t, op, Some(n))])
      else s.(threads := s.threads[t := Loading(op)])
    case Adding(op, n) =>
      s.(consumed := WrapAdd(s.consumed, n), threads := s.threads[t := Idle],
         trace := s.trace + [Returned(t, op, Some(n))])
  }

  datatype Turn = Turn(thread: nat, next: Op)

  /** Any schedule of any number of threads. */
  function Run(limit: u64, n: nat, turns: seq<Turn>): (s: State)
    requires forall i :: 0 <= i < |turns| ==> turns[i].thread < n
    ensures |s.threads| == n
    decreases |turns|
  {
    if turns == [] then Initial(limit, n) else
    var last := turns[|turns| - 1];
    Step(Run(limit, n, turns[..|turns| - 1]), last.thread, last.next)
  }

  // ----------------------------------------------------------------- conservation

  function InFlight(threads: seq<Local>): nat {
    if threads == [] then 0
    else Flight(threads[0]) + InFlight(threads[1..])
  }

  function Flight(l: Local): nat {
    if l.Adding? then l.amount else 0
  }

  lemma {:induction false} InFlightUpdate(threads: seq<Local>, t: nat, l: Local)
    requires t < |threads|
    ensures InFlight(threads[t := l]) == InFlight(threads) - Flight(threads[t]) + Flight(l)
  {
    if t == 0 {
      assert threads[0 := l][1..] == threads[1..];
    } else {
      assert threads[t := l][1..] == threads[1..][t - 1 := l];
      InFlightUpdate(threads[1..], t - 1, l);
    }
  }

  /** Every unit of the limit is remaining, consumed, granted but not yet added, or
      discarded; what a thread has loaded is no less than what remains. */
  ghost predicate Conserved(limit: u64, s: State) {
    && s.remaining + s.consumed + InFlight(s.threads) + s.zeroed == limit
    && forall t :: 0 <= t < |s.threads| ==> Current(s, s.threads[t])
  }

  predicate Current(s: State, l: Local) {
    && (l.Swapping? ==> s.remaining <= l.seen && Amount(l.op, l.seen) <= l.seen)
    && (l.Zeroing? ==> s.remaining <= l.seen < l.op.cost && l.op.Consume?)
  }

  lemma StepConserves(limit: u64, s: State, t: nat, next: Op)
    requires Conserved(limit, s) && t < |s.threads|
    ensures Conserved(limit, Step(s, t, next)) && Step(s, t, next).remaining <= s.remaining
  {
    var s' := Step(s, t, next);
    assert Current(s, s.threads[t]);
    InFlightUpdate(s.threads, t, s'.threads[t]);
    forall u | 0 <= u < |s'.threads| ensures Current(s', s'.threads[u]) {
      assert Current(s, s.threads[u]);
    }
  }

  lemma {:induction false} IdleThreads(n: nat)
    ensures InFlight(seq(n, _ => Idle)) == 0
  {
    if n > 0 {
      IdleThreads(n - 1);
      assert seq(n, _ => Idle)[1..] == seq(n - 1, _ => Idle);
    }
  }

  /** In every interleaving nothing is lost or granted twice, and no more than the
      limit is ever consumed. */
  lemma {:induction false} ConservedAlways(limit: u64, n: nat, turns: seq<Turn>)
    requires forall i :: 0 <= i < |turns| ==> turns[i].thread < n
    ensures Conserved(limit, Run(limit, n, turns)) && Run(limit, n, turns).consumed <= limit
    decreases |turns|
  {
    if turns == [] {
      IdleThreads(n);
    } else {
      var last := turns[|turns| - 1];
      ConservedAlways(limit, n, turns[..|turns| - 1]);
      StepConserves(limit, Run(limit, n, turns[..|turns| - 1]), last.thread, last.next);
    }
  }

  /** A compare-and-swap fails only because some other thread has lowered what remains
      since it was loaded: one thread's retry is another's progress. */
  lemma FailedSwapMeansProgress(limit: u64, s: State, t: nat, next: Op)
    requires Conserved(limit, s) && t < |s.threads| && s.threads[t].Swapping?
    ensures Step(s, t, next).threads[t].Loading? <==> s.remaining < s.threads[t].seen
    ensures Step(s, t, next).threads[t].Loading? ==> Step(s, t, next).remaining == s.remaining
  {
    assert Current(s, s.threads[t]);
  }

  // --------------------------------------------------------------- linearizability

  /** The meter as if every call were a single step. */
  function Atomic(remaining: u64, op: Op): (u64, Option<u64>) {
    match op
    case Consume(cost) => if remaining < cost then (0, None) else (remaining - cost, Some(cost))
    case ConsumeChecked(cost) => if remaining < cost then (0, Some(remaining)) else (remaining - cost, Some(cost))
  }

  /** A single call: Consume gets its cost or, if it does not fit, nothing, and the meter is
      emptied; ConsumeChecked gets its cost or what is left. Nothing else is lost. */
  lemma AtomicExactly(remaining: u64, op: Op)
    ensures var (left, granted) := Atomic(remaining, op);
      && (granted.None? <==> op.Consume? && op.cost > remaining)
      && (granted.None? ==> left == 0)
      && (granted.Some? ==> left + granted.value == remaining && granted.value <= op.cost)
      && (granted.Some? && granted.value < op.cost ==> op.ConsumeChecked? && left == 0)
  {
  }

  /** What remains after the decided calls are made one after the other, in the order of
      their decisions, or None if one of them has another result. */
  function Replayed(limit: u64, trace: seq<Mark>): Option<u64>
    decreases |trace|
  {
    if trace == [] then Some(limit) else
    var (r, m) := (Replayed(limit, trace[..|trace| - 1]), trace[|trace| - 1]);
    if !m.Decided? || r.None? then r
    else if Atomic(r.value, m.op).1 == m.granted then Some(Atomic(r.value, m.op).0) else None
  }

  lemma ReplaysMore(limit: u64, trace: seq<Mark>, m: Mark)
    ensures Replayed(limit, trace + [m]) ==
      var r := Replayed(limit, trace);
      if !m.Decided? || r.None? then r
      else if Atomic(r.value, m.op).1 == m.granted then Some(Atomic(r.value, m.op).0) else None
  {
    assert (trace + [m])[..|trace|] == trace;
  }

  lemma StepReplays(limit: u64, s: State, t: nat, next: Op)
    requires Conserved(limit, s) && t < |s.threads| && Replayed(limit, s.trace) == Some(s.remaining)
    ensures Replayed(limit, Step(s, t, next).trace) == Some(Step(s, t, next).remaining)
  {
    assert Current(s, s.threads[t]);
    match s.threads[t]
    case Idle => ReplaysMore(limit, s.trace, Began(t, next));
    case Loading(_) =>
    case Zeroing(op, _) => RefusalReplays(limit, s.trace, t, op, s.remaining);
    case Swapping(op, seen) =>
      if s.remaining == seen {
        Grants(op, seen);
        GrantReplays(limit, s.trace, t, op, seen, Amount(op, seen));
      }
    case Adding(op, n) => ReplaysMore(limit, s.trace, Returned(t, op, Some(n)));
  }

  lemma RefusalReplays(limit: u64, trace: seq<Mark>, t: nat, op: Op, remaining: u64)
    requires Replayed(limit, trace) == Some(remaining) && op.Consume? && remaining < op.cost
    ensures Replayed(limit, trace + [Decided(t, op, None), Returned(t, op, None)]) == Some(0)
  {
    var (m, n) := (Decided(t, op, None), Returned(t, op, None));
    ReplaysMore(limit, trace, m);
    ReplaysMore(limit, trace + [m], n);
    assert trace + [m] + [n] == trace + [m, n];
  }

  lemma Grants(op: Op, seen: u64)
    requires Amount(op, seen) <= seen
    ensures Atomic(seen, op) == (seen - Amount(op, seen), Some(Amount(op, seen)))
  {
  }

  lemma GrantReplays(limit: u64, trace: seq<Mark>, t: nat, op: Op, seen: u64, n: u64)
    requires Replayed(limit, trace) == Some(seen) && n <= seen && Atomic(seen, op) == (seen - n, Some(n))
    ensures Replayed(limit, trace + [Decided(t, op, Some(n))]) == Some(seen - n)
  {
    ReplaysMore(limit, trace, Decided(t, op, Some(n)));
  }

  /** What happens to the calls of one thread. */
  function Own(trace: seq<Mark>, t: nat): seq<Mark>
    decreases |trace|
  {
    if trace == [] then [] else
    var (own, m) := (Own(trace[..|trace| - 1], t), trace[|trace| - 1]);
    if m.thread == t then own + [m] else own
  }

  lemma OwnMore(trace: seq<Mark>, m: Mark, t: nat)
    ensures Own(trace + [m], t) == if m.thread == t then Own(trace, t) + [m] else Own(trace, t)
  {
    assert (trace + [m])[..|trace|] == trace;
  }

  /** Calls one after the other: each begins, is then decided, and then returns what it was
      granted. */
  predicate Calls(own: seq<Mark>) {
    if own == [] then true else
    var n := |own| - 3;
    && n >= 0 && Calls(own[..n]) && own[n].Began? && own[n + 1].Decided?
    && own[n + 1] == Decided(own[n].thread, own[n].op, own[n + 1].granted)
    && own[n + 2] == Returned(own[n].thread, own[n].op, own[n + 1].granted)
  }

  /** What has happened to the call that a thread is in. */
  function UnderWay(t: nat, l: Local): seq<Mark> {
    match l
    case Idle => []
    case Adding(op, n) => [Began(t, op), Decided(t, op, Some(n))]
    case _ => [Began(t, l.op)]
  }

  predicate CallsThen(own: seq<Mark>, last: seq<Mark>) {
    |own| >= |last| && own[|own| - |last|..] == last && Calls(own[..|own| - |last|])
  }

  /** Thread t has made whole calls, and is in the one that its state says. */
  predicate InOrder(s: State, t: nat)
    requires t < |s.threads|
  {
    CallsThen(Own(s.trace, t), UnderWay(t, s.threads[t]))
  }

  lemma GoesOn(own: seq<Mark>, last: seq<Mark>, m: Mark)
    requires CallsThen(own, last)
    ensures CallsThen(own + [m], last + [m])
  {
    assert (own + [m])[..|own| - |last|] == own[..|own| - |last|];
  }

  lemma Completed(own: seq<Mark>, t: nat, op: Op, granted: Option<u64>)
    requires CallsThen(own, [Began(t, op), Decided(t, op, granted), Returned(t, op, granted)])
    ensures CallsThen(own, [])
  {
    var n := |own| - 3;
    assert own[n] == own[n..][0] && own[n + 1] == own[n..][1] && own[n + 2] == own[n..][2];
    assert own[..|own|] == own;
  }

  lemma StepOthers(s: State, t: nat, next: Op, u: nat)
    requires t < |s.threads| && u < |s.threads| && u != t
    ensures Own(Step(s, t, next).trace, u) == Own(s.trace, u) && Step(s, t, next).threads[u] == s.threads[u]
  {
    match s.threads[t]
    case Idle => OwnMore(s.trace, Began(t, next), u);
    case Loading(_) =>
    case Zeroing(op, _) => OwnTwo(s.trace, Decided(t, op, None), Returned(t, op, None), u);
    case Swapping(op, seen) => OwnMore(s.trace, Decided(t, op, Some(Amount(op, seen))), u);
    case Adding(op, n) => OwnMore(s.trace, Returned(t, op, Some(n)), u);
  }

  lemma OwnTwo(trace: seq<Mark>, m: Mark, n: Mark, t: nat)
    requires m.thread == n.thread
    ensures Own(trace + [m, n], t) == if m.thread == t then Own(trace, t) + [m, n] else Own(trace, t)
  {
    OwnMore(trace, m, t);
    OwnMore(trace + [m], n, t);
    assert trace + [m] + [n] == trace + [m, n];
  }

  lemma Decides(own: seq<Mark>, t: nat, op: Op, granted: Option<u64>)
    requires CallsThen(own, [Began(t, op)])
    ensures CallsThen(own + [Decided(t, op, granted)], [Began(t, op), Decided(t, op, granted)])
  {
    GoesOn(own, [Began(t, op)], Decided(t, op, granted));
    assert [Began(t, op)] + [Decided(t, op, granted)] == [Began(t, op), Decided(t, op, granted)];
  }

  lemma Returns(own: seq<Mark>, t: nat, op: Op, granted: Option<u64>)
    requires CallsThen(own, [Began(t, op), Decided(t, op, granted)])
    ensures CallsThen(own + [Returned(t, op, granted)], [])
  {
    var (last, r) := ([Began(t, op), Decided(t, op, granted)], Returned(t, op, granted));
    GoesOn(own, last, r);
    assert last + [r] == [Began(t, op), Decided(t, op, granted), r];
    Completed(own + [r], t, op, granted);
  }

  /** What a step adds to its thread's marks. */
  function Happens(s: State, t: nat, next: Op): seq<Mark>
    requires t < |s.threads|
  {
    match s.threads[t]
    case Idle => [Began(t, next)]
    case Loading(_) => []
    case Zeroing(op, _) => [Decided(t, op, None), Returned(t, op, None)]
    case Swapping(op, seen) =>
      if s.remaining == seen && Amount(op, seen) <= seen then [Decided(t, op, Some(Amount(op, seen)))] else []
    case Adding(op, n) => [Returned(t, op, Some(n))]
  }

  lemma StepOwn(s: State, t: nat, next: Op)
    requires t < |s.threads|
    ensures Own(Step(s, t, next).trace, t) == Own(s.trace, t) + Happens(s, t, next)
  {
    match s.threads[t]
    case Idle => OwnMore(s.trace, Began(t, next), t);
    case Loading(_) =>
    case Zeroing(op, _) => OwnTwo(s.trace, Decided(t, op, None), Returned(t, op, None), t);
    case Swapping(op, seen) => OwnMore(s.trace, Decided(t, op, Some(Amount(op, seen))), t);
    case Adding(op, n) => OwnMore(s.trace, Returned(t, op, Some(n)), t);
  }

  /** Where a step takes its thread. */
  function Becomes(s: State, t: nat, next: Op): Local
    requires t < |s.threads|
  {
    match s.threads[t]
    case Idle => Loading(next)
    case Loading(op) => AfterLoad(op, s.remaining)
    case Zeroing(op, _) => Idle
    case Swapping(op, seen) =>
      if s.remaining == seen && Amount(op, seen) <= seen then Adding(op, Amount(op, seen)) else Loading(op)
    case Adding(op, n) => Idle
  }

  lemma StepThread(s: State, t: nat, next: Op)
    requires t < |s.threads|
    ensures Step(s, t, next).threads[t] == Becomes(s, t, next)
  {
  }

  /** Marks that take a thread from one state to the next. */
  lemma Follows(own: seq<Mark>, s: State, t: nat, next: Op)
    requires t < |s.threads| && CallsThen(own, UnderWay(t, s.threads[t]))
    ensures CallsThen(own + Happens(s, t, next), UnderWay(t, Becomes(s, t, next)))
  {
    assert own + [] == own;
    match s.threads[t]
    case Idle => Begins(own, t, next);
    case Loading(_) =>
    case Zeroing(op, _) => Refused(own, t, op);
    case Swapping(op, seen) => Decides(own, t, op, Some(Amount(op, seen)));
    case Adding(op, n) => Returns(own, t, op, Some(n));
  }

  lemma Begins(own: seq<Mark>, t: nat, op: Op)
    requires CallsThen(own, [])
    ensures CallsThen(own + [Began(t, op)], [Began(t, op)])
  {
    GoesOn(own, [], Began(t, op));
    assert [] + [Began(t, op)] == [Began(t, op)];
  }

  lemma Refused(own: seq<Mark>, t: nat, op: Op)
    requires CallsThen(own, [Began(t, op)])
    ensures CallsThen(own + [Decided(t, op, None), Returned(t, op, None)], [])
  {
    var (m, n) := (Decided(t, op, None), Returned(t, op, None));
    Decides(own, t, op, None);
    Returns(own + [m], t, op, None);
    assert own + [m] + [n] == own + [m, n];
  }

  lemma StepInOrder(s: State, t: nat, next: Op)
    requires t < |s.threads| && InOrder(s, t)
    ensures InOrder(Step(s, t, next), t)
  {
    StepThread(s, t, next);
    StepOwn(s, t, next);
    Follows(Own(s.trace, t), s, t, next);
  }

  /** Linearizability: in every interleaving, each call of each thread is decided between
      its beginning and its return, and returns what it was then granted; and these are
      the results of the same calls made one at a time, in the order of the decisions. */
  lemma {:induction false} Linearizable(limit: u64, n: nat, turns: seq<Turn>)
    requires forall i :: 0 <= i < |turns| ==> turns[i].thread < n
    ensures var s := Run(limit, n, turns); Replayed(limit, s.trace) == Some(s.remaining)
    ensures forall u :: 0 <= u < n ==> InOrder(Run(limit, n, turns), u)
    decreases |turns|
  {
    if turns != [] {
      var (before, last) := (Run(limit, n, turns[..|turns| - 1]), turns[|turns| - 1]);
      Linearizable(limit, n, turns[..|turns| - 1]);
      ConservedAlways(limit, n, turns[..|turns| - 1]);
      StepReplays(limit, before, last.thread, last.next);
      forall u | 0 <= u < n ensures InOrder(Run(limit, n, turns), u) {
        assert InOrder(before, u);
        if u == last.thread { StepInOrder(before, u, last.next); }
        else { StepOthers(before, last.thread, last.next, u); }
      }
    }
  }

  /** The sum of what the decided calls were granted. */
  function Granted(trace: seq<Mark>): nat
    decreases |trace|
  {
    if trace == [] then 0 else
    var m := trace[|trace| - 1];
    Granted(trace[..|trace| - 1]) + if m.Decided? && m.granted.Some? then m.granted.value else 0
  }

  lemma GrantedMore(trace: seq<Mark>, m: Mark)
    ensures Granted(trace + [m]) == Granted(trace) + if m.Decided? && m.granted.Some? then m.granted.value else 0
  {
    assert (trace + [m])[..|trace|] == trace;
  }

  /** When no addition is in flight, the consumed field is what calls were granted. */
  lemma {:induction false} ConsumedIsGranted(limit: u64, n: nat, turns: seq<Turn>)
    requires forall i :: 0 <= i < |turns| ==> turns[i].thread < n
    ensures var s := Run(limit, n, turns); s.consumed + InFlight(s.threads) == Granted(s.trace)
    decreases |turns|
  {
    if turns == [] {
      IdleThreads(n);
    } else {
      var (before, last) := (Run(limit, n, turns[..|turns| - 1]), turns[|turns| - 1]);
      ConsumedIsGranted(limit, n, turns[..|turns| - 1]);
      ConservedAlways(limit, n, turns[..|turns| - 1]);
      StepConsumes(limit, before, last.thread, last.next);
      TraceGrants(before, last.thread, last.next);
    }
  }

  /** What a step grants. */
  function Grant(s: State, t: nat): nat
    requires t < |s.threads|
  {
    var l := s.threads[t];
    if l.Swapping? && s.remaining == l.seen && Amount(l.op, l.seen) <= l.seen then Amount(l.op, l.seen) else 0
  }

  lemma StepConsumes(limit: u64, s: State, t: nat, next: Op)
    requires Conserved(limit, s) && t < |s.threads|
    ensures var s' := Step(s, t, next);
      s'.consumed + InFlight(s'.threads) == s.consumed + InFlight(s.threads) + Grant(s, t)
  {
    InFlightUpdate(s.threads, t, Step(s, t, next).threads[t]);
  }

  lemma TraceGrants(s: State, t: nat, next: Op)
    requires t < |s.threads|
    ensures Granted(Step(s, t, next).trace) == Granted(s.trace) + Grant(s, t)
  {
    match s.threads[t]
    case Idle => GrantedMore(s.trace, Began(t, next));
    case Loading(_) =>
    case Zeroing(op, _) =>
      var (m, n) := (Decided(t, op, None), Returned(t, op, None));
      GrantedMore(s.trace, m);
      GrantedMore(s.trace + [m], n);
      assert s.trace + [m] + [n] == s.trace + [m, n];
    case Swapping(op, seen) => GrantedMore(s.trace, Decided(t, op, Some(Amount(op, seen))));
    case Adding(op, n) => GrantedMore(s.trace, Returned(t, op, Some(n)));
  }

  // ------------------------------------------------------------ without interference

  class Meter {
    var remaining: u64
    var consumed: u64
    const limit: u64
    const disabled: bool

    constructor (limit: u64)
      ensures !disabled && remaining == this.limit == (if limit > CU_MAX then CU_MAX else limit) && consumed == 0
    {
      var l := if limit > CU_MAX then CU_MAX else limit;
      remaining, consumed, this.limit, disabled := l, 0, l, false;
    }

    method CompareAndSwap(seen: u64, next: u64) returns (ok: bool)
      modifies this`remaining
      ensures ok == (old(remaining) == seen)
      ensures remaining == if ok then next else old(remaining)
    {
      if remaining != seen { return false; }
      remaining := next;
      return true;
    }

    /** Undisturbed, the loops make one round and do what Atomic says. */
    method Consume(cost: u64) returns (ok: bool)
      modifies this`remaining, this`consumed
      ensures disabled ==> ok && remaining == old(remaining) && consumed == old(consumed)
      ensures !disabled ==> (remaining, if ok then Some(cost) else None) == Atomic(old(remaining), Op.Consume(cost))
      ensures !disabled ==> consumed == if ok then WrapAdd(old(consumed), cost) else old(consumed)
    {
      if disabled { return true; }
      var swapped := false;
      while !swapped
        invariant !swapped ==> remaining == old(remaining)
        invariant swapped ==> old(remaining) >= cost && remaining == old(remaining) - cost
        invariant consumed == old(consumed)
        decreases !swapped
      {
        var seen := remaining;
        if seen < cost {
          remaining := 0;
          return false;
        }
        swapped := CompareAndSwap(seen, seen - cost);
      }
      consumed := WrapAdd(consumed, cost);
      return true;
    }

    method ConsumeChecked(cost: u64) returns (actual: u64)
      modifies this`remaining, this`consumed
      ensures disabled ==> actual == cost && remaining == old(remaining) && consumed == old(consumed)
      ensures !disabled ==> (remaining, Some(actual)) == Atomic(old(remaining), Op.ConsumeChecked(cost))
      ensures !disabled ==> consumed == WrapAdd(old(consumed), actual)
    {
      if disabled { return cost; }
      var swapped := false;
      actual := 0;
      while !swapped
        invariant !swapped ==> remaining == old(remaining)
        invariant swapped ==> actual == (if old(remaining) < cost then old(remaining) else cost)
        invariant swapped ==> remaining == old(remaining) - actual
        invariant consumed == old(consumed)
        decreases !swapped
      {
        var seen := remaining;
        actual := if seen < cost then seen else cost;
        swapped := CompareAndSwap(seen, seen - actual);
      }
      consumed := WrapAdd(consumed, actual);
    }
  }
}
