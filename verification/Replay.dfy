/** What replaying slots does (pkg/replayer/replayer.go), as functions of the
    replayer's state, and what holds over whole runs: links, bank hash chain,
    delta completeness and the lamport supply. */
module Replay {
  import opened Bytes
  import opened Merkle
  import opened Store
  import opened Transactions
  import opened TxLaws
  import opened TxExecutor
  import opened BankHash
  import StateHash

  datatype Block = Block(previousBlockhash: Hash, blockhash: Hash, transactions: seq<Tx>)

  /** The surroundings of a replayer that a replay does not change: the stored blocks,
      whether the account database can hash itself, and whether it has been closed. */
  datatype World = World(sha: Sha, blocks: map<u64, Block>, hashable: bool, closed: bool)

  datatype State = State(slot: u64, blockhash: Hash, bankhash: Hash, modified: set<Pubkey>, signatures: u64)

  datatype ReplayError = AlreadyProcessed | MissingBlock | BlockhashMismatch | HashFailed | SlotNotSaved

  /** What the transactions of a slot have done so far. */
  datatype Work = Work(db: AccountMap, modified: set<Pubkey>, signatures: u64)

  function RunTxs(w: World, db: AccountMap, txs: seq<Tx>): Work
    decreases |txs|, 1
  {
    if txs == [] then Work(db, {}, 0) else RunLastTx(w, db, txs)
  }

  function RunLastTx(w: World, db: AccountMap, txs: seq<Tx>): Work
    requires txs != []
    decreases |txs|, 0
  {
    RunTx(w, RunTxs(w, db, txs[..|txs| - 1]), txs[|txs| - 1])
  }

  function Keys(ks: seq<Pubkey>): set<Pubkey> {
    set k | k in ks
  }

  /** A failed transaction still reports its fee payer. */
  function RunTx(w: World, before: Work, tx: Tx): Work {
    var o := Executed(w.sha, w.closed, before.db, tx);
    Work(o.db, before.modified + Keys(if o.success then o.modified else FeePayer(tx)),
      WrapAdd(before.signatures, tx.signatures % 0x1_0000_0000_0000_0000))
  }

  /** The touched accounts in key order. */
  ghost function ReportedContents(w: World, work: Work): seq<StateHash.Content> {
    if w.hashable then StateHash.Contents(work.db, StateHash.Sort(StateHash.AnyOrder(work.modified))) else []
  }

  predicate Hashes(w: World, work: Work) {
    w.hashable && w.closed ==> work.modified == {}
  }

  datatype Step = Step(outcome: Result<Hash, ReplayError>, st: State, db: AccountMap, ghost log: seq<Entry>)

  ghost function ReplaySlot(w: World, st: State, db: AccountMap, slot: u64): Step {
    if slot <= st.slot && st.slot > 0 then Step(Err(AlreadyProcessed), st, db, [])
    else if slot !in w.blocks then Step(Err(MissingBlock), st, db, [])
    else if st.slot > 0 && w.blocks[slot].previousBlockhash != st.blockhash
      then Step(Err(BlockhashMismatch), st, db, [])
    else
      var work := RunTxs(w, db, w.blocks[slot].transactions);
      if !Hashes(w, work) then
        Step(Err(HashFailed), st.(modified := work.modified, signatures := work.signatures), work.db, [])
      else
        var e := MakeEntry(w, st, slot, work);
        Step(if w.closed then Err(SlotNotSaved) else Ok(e.bank),
          State(slot, e.info.blockhash, e.bank, work.modified, work.signatures), work.db, [e])
  }

  ghost function MakeEntry(w: World, st: State, slot: u64, work: Work): Entry
    requires slot in w.blocks
  {
    var contents := ReportedContents(w, work);
    var info := Info(st.bankhash, StateHash.Commit(w.sha, 2, contents), work.signatures, w.blocks[slot].blockhash);
    Entry(slot, w.blocks[slot].previousBlockhash, info, work.modified, contents, w.sha(BankPre(info)))
  }

  // ------------------------------------------------------------------ whole runs

  datatype History = History(st: State, db: AccountMap, log: seq<Entry>)

  /** Any sequence of requests; the log holds the slots that were accepted. */
  ghost function Requests(w: World, st: State, db: AccountMap, slots: seq<u64>): History
    decreases |slots|, 1
  {
    if slots == [] then History(st, db, []) else LastRequest(w, st, db, slots)
  }

  ghost function LastRequest(w: World, st: State, db: AccountMap, slots: seq<u64>): History
    requires slots != []
    decreases |slots|, 0
  {
    var h := Requests(w, st, db, slots[..|slots| - 1]);
    var s := ReplaySlot(w, h.st, h.db, slots[|slots| - 1]);
    History(s.st, s.db, h.log + s.log)
  }

  function SlotBefore(start: State, log: seq<Entry>, i: nat): u64
    requires i <= |log|
  {
    if i == 0 then start.slot else log[i - 1].slot
  }

  function BlockhashBefore(start: State, log: seq<Entry>, i: nat): Hash
    requires i <= |log|
  {
    if i == 0 then start.blockhash else log[i - 1].info.blockhash
  }

  /** Slots strictly increase and every block names the last accepted blockhash. */
  ghost predicate Linked(start: State, log: seq<Entry>) {
    forall i :: 0 <= i < |log| ==>
      log[i].slot > SlotBefore(start, log, i) && log[i].previous == BlockhashBefore(start, log, i)
  }

  lemma SealedEntry(w: World, st: State, slot: u64, work: Work)
    requires slot in w.blocks
    ensures Sealed(w.sha, MakeEntry(w, st, slot, work))
  {
  }

  /** Entries without contents: what a database that cannot hash itself commits to. */
  ghost predicate Plain(log: seq<Entry>) {
    forall i :: 0 <= i < |log| ==> log[i].contents == []
  }

  ghost predicate AtBank(start: State, log: seq<Entry>, st: State) {
    st.bankhash == BankBefore(start.bankhash, log, |log|)
  }

  /** The bank hash chain, over any sequence of requests, whichever of them are refused. */
  lemma {:induction false} RunChained(w: World, start: State, db: AccountMap, slots: seq<u64>)
    ensures var h := Requests(w, start, db, slots);
      Chained(w.sha, start.bankhash, h.log) && AtBank(start, h.log, h.st) && (!w.hashable ==> Plain(h.log))
    decreases |slots|
  {
    if slots != [] {
      RunChained(w, start, db, slots[..|slots| - 1]);
      var h := Requests(w, start, db, slots[..|slots| - 1]);
      StepChained(w, start, h, slots[|slots| - 1]);
    }
  }

  lemma StepChained(w: World, start: State, h: History, slot: u64)
    requires Chained(w.sha, start.bankhash, h.log) && AtBank(start, h.log, h.st) && (!w.hashable ==> Plain(h.log))
    ensures var s := ReplaySlot(w, h.st, h.db, slot);
      && Chained(w.sha, start.bankhash, h.log + s.log) && AtBank(start, h.log + s.log, s.st)
      && (!w.hashable ==> Plain(h.log + s.log))
  {
    var s := ReplaySlot(w, h.st, h.db, slot);
    if s.log == [] {
      assert h.log + s.log == h.log;
    } else {
      var e := s.log[0];
      assert s.log == [e];
      SealedEntry(w, h.st, slot, RunTxs(w, h.db, w.blocks[slot].transactions));
      ExtendChain(w.sha, start.bankhash, h.log, e);
    }
  }

  /** The replayer's slot and blockhash are those of the last accepted slot. */
  ghost predicate AtEnd(start: State, log: seq<Entry>, st: State) {
    st.slot == SlotBefore(start, log, |log|) && st.blockhash == BlockhashBefore(start, log, |log|)
  }

  /** The links, from a slot above zero. */
  lemma {:induction false} RunLinked(w: World, start: State, db: AccountMap, slots: seq<u64>)
    requires start.slot > 0
    ensures var h := Requests(w, start, db, slots);
      Linked(start, h.log) && AtEnd(start, h.log, h.st) && h.st.slot > 0
    decreases |slots|
  {
    if slots != [] {
      RunLinked(w, start, db, slots[..|slots| - 1]);
      var h := Requests(w, start, db, slots[..|slots| - 1]);
      StepLinked(w, start, h, slots[|slots| - 1]);
    }
  }

  lemma StepLinked(w: World, start: State, h: History, slot: u64)
    requires Linked(start, h.log) && AtEnd(start, h.log, h.st) && h.st.slot > 0
    ensures var s := ReplaySlot(w, h.st, h.db, slot);
      Linked(start, h.log + s.log) && AtEnd(start, h.log + s.log, s.st) && s.st.slot > 0
  {
    var s := ReplaySlot(w, h.st, h.db, slot);
    if s.log == [] {
      assert h.log + s.log == h.log;
    } else {
      assert s.log == [s.log[0]];
      ExtendLinks(start, h.log, s.log[0]);
    }
  }

  lemma ExtendLinks(start: State, log: seq<Entry>, e: Entry)
    requires Linked(start, log)
    requires e.slot > SlotBefore(start, log, |log|) && e.previous == BlockhashBefore(start, log, |log|)
    ensures Linked(start, log + [e])
  {
    var more := log + [e];
    forall i | 0 <= i < |more|
      ensures more[i].slot > SlotBefore(start, more, i) && more[i].previous == BlockhashBefore(start, more, i)
    {
      if i < |log| { assert more[i] == log[i]; }
      assert i > 0 ==> more[i - 1] == log[i - 1];
    }
  }

  lemma ExtendChain(sha: Sha, bank: Hash, log: seq<Entry>, e: Entry)
    requires Chained(sha, bank, log) && Sealed(sha, e) && e.info.parent == BankBefore(bank, log, |log|)
    ensures Chained(sha, bank, log + [e])
  {
    var more := log + [e];
    forall i | 0 <= i < |more| ensures Sealed(sha, more[i]) && more[i].info.parent == BankBefore(bank, more, i) {
      if i < |log| { assert more[i] == log[i]; }
      assert i > 0 ==> more[i - 1] == log[i - 1];
    }
  }

  /** Two replayers, over any stored blocks, that have accepted equally many slots and
      ended in one bank hash have agreed at every slot, or ChainBreak computes a break
      of the hash function. */
  lemma RunsBind(w: World, start: State, db: AccountMap, slots: seq<u64>,
      v: World, other: State, db2: AccountMap, slots2: seq<u64>)
    requires w.sha == v.sha
    requires var (h, g) := (Requests(w, start, db, slots), Requests(v, other, db2, slots2));
      |h.log| == |g.log| && h.st.bankhash == g.st.bankhash
    ensures var (h, g) := (Requests(w, start, db, slots), Requests(v, other, db2, slots2));
      || IsBreak(w.sha, ChainBreak(w.sha, h.log, g.log))
      || (SameEntries(h.log, g.log) && start.bankhash == other.bankhash)
  {
    RunChained(w, start, db, slots);
    RunChained(v, other, db2, slots2);
    var (h, g) := (Requests(w, start, db, slots), Requests(v, other, db2, slots2));
    ChainBinding(w.sha, start.bankhash, h.log, other.bankhash, g.log);
  }

  /** Every run from here is linked. */
  ghost predicate AlwaysLinked(start: State) {
    forall w, db, slots :: Linked(start, Requests(w, start, db, slots).log)
  }

  /** Links are checked, in every world and run, exactly from a slot above zero: at slot
      zero any stored block is accepted. */
  lemma LinkedExactly(start: State)
    ensures AlwaysLinked(start) <==> start.slot > 0
  {
    if start.slot > 0 {
      forall w, db, slots ensures Linked(start, Requests(w, start, db, slots).log) { RunLinked(w, start, db, slots); }
    } else {
      var w := StrayWorld(start);
      SlotZeroUnchecked(w, start, map[], 1);
      var log := Requests(w, start, map[], [1]).log;
      assert log[0].previous != BlockhashBefore(start, log, 0);
    }
  }

  /** A stored block that does not name the blockhash before it. */
  ghost function StrayWorld(start: State): (w: World)
    ensures !w.closed && 1 in w.blocks && w.blocks[1].previousBlockhash != start.blockhash
  {
    var one: Hash := [1] + ZeroBytes(31);
    assert one[0] != ZERO_HASH[0];
    var other := if start.blockhash == ZERO_HASH then one else ZERO_HASH;
    World(_ => ZERO_HASH, map[1 := Block(other, ZERO_HASH, [])], false, false)
  }

  lemma SlotZeroUnchecked(w: World, st: State, db: AccountMap, slot: u64)
    requires st.slot == 0 && slot in w.blocks && !w.closed
    ensures ReplaySlot(w, st, db, slot).outcome.Ok?
    ensures var log := Requests(w, st, db, [slot]).log;
      |log| == 1 && log[0].previous == w.blocks[slot].previousBlockhash
  {
    var s := ReplaySlot(w, st, db, slot);
    assert [slot][..0] == [];
    assert Requests(w, st, db, []) == History(st, db, []);
    assert Requests(w, st, db, [slot]) == LastRequest(w, st, db, [slot]);
    assert [] + s.log == s.log;
  }

  // --------------------------------------------------------- delta completeness

  lemma {:induction false} UnreportedSame(w: World, db: AccountMap, txs: seq<Tx>, k: Pubkey)
    requires k !in RunTxs(w, db, txs).modified
    ensures SameAt(RunTxs(w, db, txs).db, db, k)
    decreases |txs|
  {
    if txs != [] {
      var before := RunTxs(w, db, txs[..|txs| - 1]);
      UnreportedSame(w, db, txs[..|txs| - 1], k);
      Atomicity(w.sha, before.db, txs[|txs| - 1], k);
    }
  }

  /** Whatever the outcome, an account the replayer does not list as modified has its
      value from before the slot. */
  lemma DeltaComplete(w: World, st: State, db: AccountMap, slot: u64, k: Pubkey)
    requires k !in ReplaySlot(w, st, db, slot).st.modified
    ensures SameAt(ReplaySlot(w, st, db, slot).db, db, k)
  {
    var s := ReplaySlot(w, st, db, slot);
    if s.db != db { UnreportedSame(w, db, w.blocks[slot].transactions, k); }
  }

  lemma ReportedOrder(work: Work, k: Pubkey)
    ensures k in StateHash.Sort(StateHash.AnyOrder(work.modified)) <==> k in work.modified
  {
    var order := StateHash.AnyOrder(work.modified);
    StateHash.SortSorts(order);
    assert k in multiset(order) <==> k in order;
    assert k in multiset(StateHash.Sort(order)) <==> k in StateHash.Sort(order);
  }

  // -------------------------------------------- the database behind a bank hash

  /** The live accounts among committed contents. */
  function Lives(cs: seq<StateHash.Content>): AccountMap
    decreases |cs|
  {
    if cs == [] then map[] else
    var c, m := cs[|cs| - 1], Lives(cs[..|cs| - 1]);
    if c.Some? then m[c.value.0 := c.value.1] else m
  }

  function Patch(m: AccountMap, e: Entry): AccountMap {
    (m - e.modified) + Lives(e.contents)
  }

  function Rebuild(db: AccountMap, log: seq<Entry>): AccountMap
    decreases |log|
  {
    if log == [] then db else Patch(Rebuild(db, log[..|log| - 1]), log[|log| - 1])
  }

  lemma {:induction false} LivesAt(n: AccountMap, keys: seq<Pubkey>, k: Pubkey)
    ensures k in Lives(StateHash.Contents(n, keys)) <==> k in keys && k in n
    ensures k in keys && k in n ==> Lives(StateHash.Contents(n, keys))[k] == n[k]
    decreases |keys|
  {
    if keys != [] {
      var most := keys[..|keys| - 1];
      LivesAt(n, most, k);
      assert StateHash.Contents(n, keys)[..|keys| - 1] == StateHash.Contents(n, most);
      assert keys == most + [keys[|keys| - 1]];
    }
  }

  lemma SlotRebuilds(w: World, db: AccountMap, txs: seq<Tx>, e: Entry)
    requires w.hashable
    requires var work := RunTxs(w, db, txs); e.modified == work.modified && e.contents == ReportedContents(w, work)
    ensures RunTxs(w, db, txs).db == Patch(db, e)
  {
    var work := RunTxs(w, db, txs);
    var keys := StateHash.Sort(StateHash.AnyOrder(work.modified));
    forall k ensures SameAt(work.db, Patch(db, e), k) {
      LivesAt(work.db, keys, k);
      ReportedOrder(work, k);
      if k !in work.modified { UnreportedSame(w, db, txs, k); }
    }
    SameMaps(work.db, Patch(db, e));
  }

  /** After any run, the database is the initial one patched with the accepted slots'
      commitments. */
  lemma {:induction false} RunRebuilds(w: World, st: State, db: AccountMap, slots: seq<u64>)
    requires w.hashable && !w.closed
    ensures Requests(w, st, db, slots).db == Rebuild(db, Requests(w, st, db, slots).log)
    decreases |slots|
  {
    if slots != [] {
      RunRebuilds(w, st, db, slots[..|slots| - 1]);
      var h := Requests(w, st, db, slots[..|slots| - 1]);
      StepRebuilds(w, db, h, slots[|slots| - 1]);
    }
  }

  lemma StepRebuilds(w: World, db: AccountMap, h: History, slot: u64)
    requires w.hashable && !w.closed && h.db == Rebuild(db, h.log)
    ensures var s := ReplaySlot(w, h.st, h.db, slot); s.db == Rebuild(db, h.log + s.log)
  {
    var s := ReplaySlot(w, h.st, h.db, slot);
    if s.log == [] {
      assert h.log + s.log == h.log;
    } else {
      var e := s.log[0];
      assert s.log == [e];
      SlotRebuilds(w, h.db, w.blocks[slot].transactions, e);
      assert (h.log + [e])[..|h.log|] == h.log;
    }
  }

  /** The live accounts of all slots, the last one under each key, over the initial ones. */
  function Placed(db: AccountMap, log: seq<Entry>): AccountMap
    decreases |log|
  {
    if log == [] then db else Placed(db, log[..|log| - 1]) + Lives(log[|log| - 1].contents)
  }

  /** The keys whose last report is that of a deleted account. */
  function Removed(log: seq<Entry>): set<Pubkey>
    decreases |log|
  {
    if log == [] then {} else
    var e := log[|log| - 1];
    (Removed(log[..|log| - 1]) + e.modified) - Lives(e.contents).Keys
  }

  lemma {:induction false} RebuildIsPlaced(db: AccountMap, log: seq<Entry>)
    ensures Rebuild(db, log) == Placed(db, log) - Removed(log)
    decreases |log|
  {
    if log != [] {
      var (before, e) := (log[..|log| - 1], log[|log| - 1]);
      RebuildIsPlaced(db, before);
      PatchPlaced(Placed(db, before), Removed(before), e);
    }
  }

  lemma PatchPlaced(m: AccountMap, gone: set<Pubkey>, e: Entry)
    ensures Patch(m - gone, e) == (m + Lives(e.contents)) - ((gone + e.modified) - Lives(e.contents).Keys)
  {
  }

  lemma {:induction false} SamePlaced(db: AccountMap, log: seq<Entry>, other: seq<Entry>)
    requires SameEntries(log, other)
    ensures Placed(db, log) == Placed(db, other)
    decreases |log|
  {
    if log != [] {
      var n := |log| - 1;
      assert SameEntries(log[..n], other[..n]);
      SamePlaced(db, log[..n], other[..n]);
    }
  }

  /** The two logs remove the same accounts of those that they agree to have placed. */
  ghost predicate SameRemovals(db: AccountMap, log: seq<Entry>, other: seq<Entry>) {
    Placed(db, log).Keys * Removed(log) == Placed(db, log).Keys * Removed(other)
  }

  lemma Without(m: AccountMap, x: set<Pubkey>, y: set<Pubkey>)
    ensures m - x == m - y <==> m.Keys * x == m.Keys * y
  {
    assert (m - x).Keys == m.Keys - m.Keys * x && (m - y).Keys == m.Keys - m.Keys * y;
  }

  /** What one bank hash says of the database: two replayers that started from one
      database and accepted equally many slots hold, when their bank hashes agree, the
      same accounts if and only if their slots removed the same ones (the delta hash
      leaves out the keys of deleted accounts), or ChainBreak computes a break of the
      hash function. */
  lemma DatabaseBindingExact(w: World, start: State, slots: seq<u64>,
      v: World, other: State, slots2: seq<u64>, db: AccountMap)
    requires w.sha == v.sha && w.hashable && v.hashable && !w.closed && !v.closed
    requires var (h, g) := (Requests(w, start, db, slots), Requests(v, other, db, slots2));
      |h.log| == |g.log| && h.st.bankhash == g.st.bankhash
    ensures var (h, g) := (Requests(w, start, db, slots), Requests(v, other, db, slots2));
      IsBreak(w.sha, ChainBreak(w.sha, h.log, g.log)) || (h.db == g.db <==> SameRemovals(db, h.log, g.log))
  {
    RunsBind(w, start, db, slots, v, other, db, slots2);
    RunRebuilds(w, start, db, slots);
    RunRebuilds(v, other, db, slots2);
    var (h, g) := (Requests(w, start, db, slots), Requests(v, other, db, slots2));
    RebuildIsPlaced(db, h.log);
    RebuildIsPlaced(db, g.log);
    if SameEntries(h.log, g.log) {
      SamePlaced(db, h.log, g.log);
      Without(Placed(db, h.log), Removed(h.log), Removed(g.log));
    }
  }

  ghost predicate SameReports(log: seq<Entry>, other: seq<Entry>) {
    |log| == |other| && forall i :: 0 <= i < |log| ==> log[i].modified == other[i].modified
  }

  lemma {:induction false} SameReportsRemove(log: seq<Entry>, other: seq<Entry>)
    requires SameEntries(log, other) && SameReports(log, other)
    ensures Removed(log) == Removed(other)
    decreases |log|
  {
    if log != [] {
      var n := |log| - 1;
      assert SameEntries(log[..n], other[..n]);
      assert SameReports(log[..n], other[..n]);
      SameReportsRemove(log[..n], other[..n]);
    }
  }

  /** One bank hash, one database, if the same keys were also reported in each slot. */
  lemma DatabaseBinding(w: World, start: State, slots: seq<u64>, v: World, other: State, slots2: seq<u64>,
      db: AccountMap)
    requires w.sha == v.sha && w.hashable && v.hashable && !w.closed && !v.closed
    requires var (h, g) := (Requests(w, start, db, slots), Requests(v, other, db, slots2));
      SameReports(h.log, g.log) && h.st.bankhash == g.st.bankhash
    ensures var (h, g) := (Requests(w, start, db, slots), Requests(v, other, db, slots2));
      IsBreak(w.sha, ChainBreak(w.sha, h.log, g.log)) || h.db == g.db
  {
    RunsBind(w, start, db, slots, v, other, db, slots2);
    DatabaseBindingExact(w, start, slots, v, other, slots2, db);
    var (h, g) := (Requests(w, start, db, slots), Requests(v, other, db, slots2));
    if SameEntries(h.log, g.log) { SameReportsRemove(h.log, g.log); }
  }

  // ----------------------------------------------------------------- the supply

  lemma {:induction false} TxsSupply(w: World, db: AccountMap, txs: seq<Tx>)
    requires forall i :: 0 <= i < |txs| ==> Gain(txs[i]) == 0
    ensures Supply(RunTxs(w, db, txs).db) == Supply(db)
    decreases |txs|
  {
    if txs != [] {
      TxsSupply(w, db, txs[..|txs| - 1]);
      SupplyGain(w.sha, RunTxs(w, db, txs[..|txs| - 1]).db, txs[|txs| - 1]);
    }
  }

  /** No run of requests changes the lamports in existence, if no stored transaction
      has a gain, whatever else it does and whether it succeeds. */
  lemma {:induction false} RunSupply(w: World, st: State, db: AccountMap, slots: seq<u64>)
    requires forall b, i :: b in w.blocks && 0 <= i < |w.blocks[b].transactions| ==>
      Gain(w.blocks[b].transactions[i]) == 0
    ensures Supply(Requests(w, st, db, slots).db) == Supply(db)
    decreases |slots|
  {
    if slots != [] {
      var h := Requests(w, st, db, slots[..|slots| - 1]);
      RunSupply(w, st, db, slots[..|slots| - 1]);
      var slot := slots[|slots| - 1];
      if slot in w.blocks { TxsSupply(w, h.db, w.blocks[slot].transactions); }
    }
  }
}
