/** The buffer that puts arriving blocks in slot order (blockProcessingLoop in
    pkg/node/node.go). Slots are uint64, and both the increment of the expected slot
    and the subtraction in the clean-up wrap. */
module Reorder {
  import opened Bytes

  datatype Block = Block(slot: u64, content: nat)

  type Pending = map<u64, Block>

  const MAX_SLOT: int := U64_SIZE - 1

  function Next(slot: u64): u64 {
    if slot == MAX_SLOT then 0 else slot + 1
  }

  /** expectedSlot - 1000, as the code computes it. */
  function Horizon(expected: u64): u64 {
    if expected >= 1000 then expected - 1000 else expected + (U64_SIZE - 1000)
  }

  datatype State = State(pending: Pending, expected: u64)

  /** Hands over the blocks that are next, in order. */
  function Drain(st: State): (r: (State, seq<Block>))
    decreases |st.pending|
  {
    if st.expected !in st.pending then (st, []) else
    assert |st.pending.Keys - {st.expected}| == |st.pending - {st.expected}| by {
      assert (st.pending - {st.expected}).Keys == st.pending.Keys - {st.expected};
    }
    var (end, rest) := Drain(State(st.pending - {st.expected}, Next(st.expected)));
    (end, [st.pending[st.expected]] + rest)
  }

  function CleanUp(st: State): State {
    State(map k | k in st.pending && k >= Horizon(st.expected) :: st.pending[k], st.expected)
  }

  /** One arriving block: buffered, then everything that is next is handed over. */
  function Receive(st: State, b: Block): (State, seq<Block>) {
    var (end, handed) := Drain(State(st.pending[b.slot := b], st.expected));
    (CleanUp(end), handed)
  }

  function ReceiveAll(start: u64, arrivals: seq<Block>): (State, seq<Block>)
    decreases |arrivals|
  {
    if arrivals == [] then (State(map[], start), []) else
    var (st, handed) := ReceiveAll(start, arrivals[..|arrivals| - 1]);
    var (end, more) := Receive(st, arrivals[|arrivals| - 1]);
    (end, handed + more)
  }

  // -------------------------------------------------------------------- the loop

  /** Processes the blocks of a queue as they come. */
  method BlockProcessingLoop(start: u64, queue: seq<Block>) returns (processed: seq<Block>)
    ensures processed == ReceiveAll(start, queue).1
  {
    var pending: Pending := map[];
    var expected: u64 := start;
    processed := [];
    var i := 0;
    while i < |queue|
      invariant 0 <= i <= |queue|
      invariant ReceiveAll(start, queue[..i]) == (State(pending, expected), processed)
    {
      assert queue[..i + 1][..i] == queue[..i];
      pending := pending[queue[i].slot := queue[i]];
      var handed;
      pending, expected, handed := ProcessReady(pending, expected);
      processed := processed + handed;
      pending := DropOld(pending, expected);
      i := i + 1;
    }
    assert queue[..i] == queue;
  }

  method ProcessReady(buffered: Pending, first: u64) returns (pending: Pending, expected: u64, handed: seq<Block>)
    ensures Drain(State(buffered, first)) == (State(pending, expected), handed)
  {
    pending, expected, handed := buffered, first, [];
    ghost var whole := Drain(State(buffered, first));
    assert [] + whole.1 == whole.1;
    while expected in pending
      invariant Drain(State(pending, expected)).0 == whole.0
      invariant handed + Drain(State(pending, expected)).1 == whole.1
      decreases |pending|
    {
      assert (pending - {expected}).Keys == pending.Keys - {expected};
      ghost var rest := Drain(State(pending - {expected}, Next(expected))).1;
      assert handed + ([pending[expected]] + rest) == handed + [pending[expected]] + rest;
      handed := handed + [pending[expected]];
      pending := pending - {expected};
      expected := Next(expected);
    }
    assert handed + [] == handed;
  }

  /** The walk over the map deletes every key below the horizon. */
  method DropOld(buffered: Pending, expected: u64) returns (pending: Pending)
    ensures State(pending, expected) == CleanUp(State(buffered, expected))
  {
    pending := buffered;
    var walk := buffered.Keys;
    while walk != {}
      invariant forall k :: k in pending ==> k in buffered && pending[k] == buffered[k]
      invariant forall k :: k in buffered && (k in walk || k >= Horizon(expected)) ==> k in pending
      invariant forall k :: k in pending && k !in walk ==> k >= Horizon(expected)
      decreases walk
    {
      var slot :| slot in walk;
      if slot < Horizon(expected) {
        pending := pending - {slot};
      }
      walk := walk - {slot};
    }
  }

  // ------------------------------------------------------------------- correctness

  predicate Arrived(seen: seq<Block>, slot: int) {
    exists i :: 0 <= i < |seen| && seen[i].slot == slot
  }

  /** The most recent block of a slot. */
  function Latest(seen: seq<Block>, slot: int): Block
    requires Arrived(seen, slot)
    decreases |seen|
  {
    var n := |seen| - 1;
    if seen[n].slot == slot then seen[n] else
    assert Arrived(seen[..n], slot) by {
      var i :| 0 <= i < |seen| && seen[i].slot == slot;
      assert seen[..n][i].slot == slot;
    }
    Latest(seen[..n], slot)
  }

  /** From the expected slot on, the buffer holds the latest block of every slot that
      has arrived, and nothing else. */
  ghost predicate Buffered(st: State, seen: seq<Block>) {
    forall k: u64 :: k >= st.expected ==> BufferedAt(st, seen, k)
  }

  ghost predicate BufferedAt(st: State, seen: seq<Block>, k: u64) {
    && (k in st.pending <==> Arrived(seen, k))
    && (k in st.pending ==> st.pending[k] == Latest(seen, k))
  }

  /** These blocks are of the slots from start on, one each, in order. */
  predicate InOrder(start: u64, handed: seq<Block>) {
    forall i :: 0 <= i < |handed| ==> handed[i].slot == start + i
  }

  ghost predicate AllArrived(seen: seq<Block>, from: int, to: int) {
    forall k :: from <= k < to ==> Arrived(seen, k)
  }

  ghost predicate AllSeen(handed: seq<Block>, seen: seq<Block>) {
    forall i :: 0 <= i < |handed| ==> handed[i] in seen
  }

  /** Each is the most recent block of its slot. */
  ghost predicate AllLatest(handed: seq<Block>, seen: seq<Block>, from: int) {
    forall i :: 0 <= i < |handed| ==> IsLatest(handed[i], seen, from + i)
  }

  predicate IsLatest(b: Block, seen: seq<Block>, slot: int) {
    Arrived(seen, slot) && b == Latest(seen, slot)
  }

  predicate NoWrap(arrivals: seq<Block>) {
    forall i :: 0 <= i < |arrivals| ==> arrivals[i].slot < MAX_SLOT
  }

  lemma {:induction false} LatestIs(seen: seq<Block>, slot: int)
    requires Arrived(seen, slot)
    ensures Latest(seen, slot) in seen && Latest(seen, slot).slot == slot
    decreases |seen|
  {
    var n := |seen| - 1;
    if seen[n].slot != slot {
      var i :| 0 <= i < |seen| && seen[i].slot == slot;
      assert seen[..n][i].slot == slot;
      LatestIs(seen[..n], slot);
    }
  }

  lemma ArrivedMore(seen: seq<Block>, b: Block, slot: int)
    ensures Arrived(seen + [b], slot) <==> Arrived(seen, slot) || b.slot == slot
    ensures Arrived(seen + [b], slot) ==>
      Latest(seen + [b], slot) == if b.slot == slot then b else Latest(seen, slot)
  {
    var more := seen + [b];
    assert more[|seen|] == b && more[..|seen|] == seen;
    if Arrived(seen, slot) {
      var i :| 0 <= i < |seen| && seen[i].slot == slot;
      assert more[i].slot == slot;
    }
  }

  lemma BufferedNext(st: State, seen: seq<Block>)
    requires Buffered(st, seen) && NoWrap(seen) && st.expected in st.pending
    ensures Next(st.expected) == st.expected + 1
    ensures Buffered(State(st.pending - {st.expected}, Next(st.expected)), seen)
  {
    var (e, next) := (st.expected, State(st.pending - {st.expected}, Next(st.expected)));
    assert BufferedAt(st, seen, e);
    forall k: u64 | k >= e + 1 ensures BufferedAt(next, seen, k) { assert BufferedAt(st, seen, k); }
  }

  /** Draining hands over exactly the consecutive slots that have arrived. */
  lemma {:induction false} DrainInOrder(st: State, seen: seq<Block>)
    requires Buffered(st, seen) && NoWrap(seen)
    ensures var (end, handed) := Drain(st);
      && Buffered(end, seen) && !Arrived(seen, end.expected)
      && end.expected == st.expected + |handed| && InOrder(st.expected, handed)
      && AllArrived(seen, st.expected, end.expected) && AllSeen(handed, seen) && AllLatest(handed, seen, st.expected)
    decreases |st.pending|
  {
    var e := st.expected;
    assert BufferedAt(st, seen, e);
    if e in st.pending {
      LatestIs(seen, e);
      assert (st.pending - {e}).Keys == st.pending.Keys - {e};
      var next := State(st.pending - {e}, Next(e));
      BufferedNext(st, seen);
      DrainInOrder(next, seen);
      var (end, rest) := Drain(next);
      var handed := [st.pending[e]] + rest;
      forall i | 0 <= i < |handed| ensures IsLatest(handed[i], seen, e + i) {
        if i > 0 { assert handed[i] == rest[i - 1] && IsLatest(rest[i - 1], seen, next.expected + (i - 1)); }
      }
      assert forall i :: 1 <= i < |handed| ==> handed[i] == rest[i - 1];
    }
  }

  /** The state of affairs after any arrivals. */
  ghost predicate Correct(start: u64, seen: seq<Block>, st: State, handed: seq<Block>) {
    && Buffered(st, seen) && !Arrived(seen, st.expected)
    && st.expected == start + |handed| && InOrder(start, handed)
    && AllArrived(seen, start, st.expected) && AllSeen(handed, seen)
  }

  lemma ReceiveCorrect(start: u64, seen: seq<Block>, st: State, handed: seq<Block>, b: Block)
    requires start >= 1000 && Correct(start, seen, st, handed) && NoWrap(seen + [b])
    ensures var (end, more) := Receive(st, b); Correct(start, seen + [b], end, handed + more)
  {
    var (now, now_seen) := (State(st.pending[b.slot := b], st.expected), seen + [b]);
    forall k: u64 | k >= st.expected ensures BufferedAt(now, now_seen, k) {
      assert BufferedAt(st, seen, k);
      ArrivedMore(seen, b, k);
    }
    DrainInOrder(now, now_seen);
    var (end, more) := Drain(now);
    forall k: u64 | k >= end.expected ensures BufferedAt(CleanUp(end), now_seen, k) {
      assert BufferedAt(end, now_seen, k);
    }
    forall k | start <= k < end.expected ensures Arrived(now_seen, k) {
      if k < st.expected { ArrivedMore(seen, b, k); }
    }
    assert forall i :: 0 <= i < |handed| ==> (handed + more)[i] == handed[i];
    assert forall i :: |handed| <= i < |handed + more| ==> (handed + more)[i] == more[i - |handed|];
  }

  lemma {:induction false} AlwaysCorrect(start: u64, arrivals: seq<Block>)
    requires start >= 1000 && NoWrap(arrivals) && start < MAX_SLOT
    ensures var (st, handed) := ReceiveAll(start, arrivals); Correct(start, arrivals, st, handed)
    decreases |arrivals|
  {
    if arrivals != [] {
      var n := |arrivals| - 1;
      AlwaysCorrect(start, arrivals[..n]);
      var (st, handed) := ReceiveAll(start, arrivals[..n]);
      assert arrivals[..n] + [arrivals[n]] == arrivals;
      ReceiveCorrect(start, arrivals[..n], st, handed, arrivals[n]);
    }
  }

  /** Each slot from start on is processed once and in order, up to the first that
      never arrived. */
  ghost predicate ProcessedUpToGap(start: u64, arrivals: seq<Block>, processed: seq<Block>) {
    && InOrder(start, processed) && AllSeen(processed, arrivals)
    && AllArrived(arrivals, start, start + |processed|) && !Arrived(arrivals, start + |processed|)
  }

  ghost predicate CorrectFrom(start: u64) {
    forall arrivals :: NoWrap(arrivals) ==> ProcessedUpToGap(start, arrivals, ReceiveAll(start, arrivals).1)
  }

  /** Below slot 1000 the clean-up horizon wraps to the far end of the range, and a
      block that arrives one slot early is thrown away. */
  lemma EarlyBlockLost(start: u64)
    requires start < 1000
    ensures var arrivals := [Block(start + 1, 0), Block(start, 0)];
      NoWrap(arrivals) && ReceiveAll(start, arrivals).1 == [Block(start, 0)]
  {
    var (early, due, empty) := (Block(start + 1, 0), Block(start, 0), State(map[], start));
    var arrivals := [early, due];
    assert arrivals[..1] == [early] && [early][..0] == [] && [] + [due] == [due];
    EarlyDropped(start, early);
    OneReceived(start, early);
    DueProcessed(start, due);
  }

  lemma OneReceived(start: u64, b: Block)
    ensures ReceiveAll(start, [b]) == Receive(State(map[], start), b)
  {
    var one := [b];
    assert one[..|one| - 1] == [];
    var (end, more) := Receive(State(map[], start), b);
    assert [] + more == more;
  }

  lemma EarlyDropped(start: u64, early: Block)
    requires start < 1000 && early.slot == start + 1
    ensures Receive(State(map[], start), early) == (State(map[], start), [])
  {
  }

  lemma DueProcessed(start: u64, due: Block)
    requires start < 1000 && due.slot == start
    ensures Receive(State(map[], start), due).1 == [due]
  {
    var buffered: Pending := map[][start := due];
    assert buffered - {start} == map[];
    assert Drain(State(map[], Next(start))).1 == [];
  }

  /** The buffer is correct for every arrival order exactly when it starts at slot
      1000 or later. */
  lemma CorrectExactlyFrom1000(start: u64)
    requires start < MAX_SLOT
    ensures CorrectFrom(start) <==> start >= 1000
  {
    if start >= 1000 {
      forall arrivals | NoWrap(arrivals) ensures ProcessedUpToGap(start, arrivals, ReceiveAll(start, arrivals).1) {
        AlwaysCorrect(start, arrivals);
      }
    } else {
      EarlyBlockLost(start);
      var arrivals := [Block(start + 1, 0), Block(start, 0)];
      assert arrivals[0].slot == start + 1;
      assert !ProcessedUpToGap(start, arrivals, ReceiveAll(start, arrivals).1);
    }
  }

  lemma FirstGapIsUnique(start: u64, seen: seq<Block>, a: nat, b: nat)
    requires !Arrived(seen, start + a) && AllArrived(seen, start, start + b)
    ensures b <= a
  {
  }

  /** Every block of a slot is the same block, in both. */
  ghost predicate OneBlockPerSlot(arrivals: seq<Block>, other: seq<Block>) {
    forall b, c :: b in arrivals + other && c in arrivals + other && b.slot == c.slot ==> b == c
  }

  /** Which slots are processed depends only on which slots arrive, not on the order or
      on repetitions; and which blocks, if no slot comes with two different ones. */
  lemma OrderIrrelevant(start: u64, arrivals: seq<Block>, other: seq<Block>)
    requires 1000 <= start < MAX_SLOT && NoWrap(arrivals) && NoWrap(other)
    requires forall k :: Arrived(arrivals, k) <==> Arrived(other, k)
    ensures |ReceiveAll(start, arrivals).1| == |ReceiveAll(start, other).1|
    ensures forall i :: 0 <= i < |ReceiveAll(start, arrivals).1| ==>
      ReceiveAll(start, arrivals).1[i].slot == ReceiveAll(start, other).1[i].slot
    ensures OneBlockPerSlot(arrivals, other) ==> ReceiveAll(start, arrivals).1 == ReceiveAll(start, other).1
  {
    AlwaysCorrect(start, arrivals);
    AlwaysCorrect(start, other);
    var (x, y) := (ReceiveAll(start, arrivals).1, ReceiveAll(start, other).1);
    FirstGapIsUnique(start, other, |x|, |y|);
    FirstGapIsUnique(start, arrivals, |y|, |x|);
    if OneBlockPerSlot(arrivals, other) {
      forall i | 0 <= i < |x| ensures x[i] == y[i] {
        assert x[i] in arrivals && y[i] in other;
        assert x[i] in arrivals + other && y[i] in arrivals + other;
      }
    }
  }
}
