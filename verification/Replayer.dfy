/** The replayer as it runs (pkg/replayer/replayer.go): its fields are updated slot
    by slot, over an account database that the transaction executor writes to. */
module Replayer {
  import opened Bytes
  import opened Store
  import opened Transactions
  import opened TxExecutor
  import opened BankHash
  import Replay
  import StateHash

  const MAX_SLOTS: int := 10000

  /** The keys of a set in sorted order, however the set is walked. */
  method SortedKeys(m: set<Pubkey>) returns (keys: seq<Pubkey>)
    ensures keys == StateHash.Sort(StateHash.AnyOrder(m))
  {
    var walked := StateHash.Walk(m);
    StateHash.SortSorts(walked);
    StateHash.SortIsTheOnlySort(StateHash.AnyOrder(m), walked, StateHash.Sort(walked));
    keys := StateHash.Sort(walked);
  }

  class Replayer {
    const blocks: map<u64, Replay.Block>
    const accounts: MemoryDB
    const hashable: bool
    const executor: TransactionExecutor
    var currentSlot: u64
    var currentBlockhash: Hash
    var parentBankhash: Hash
    var modifiedAccounts: set<Pubkey>
    var signatureCount: u64

    constructor (blocks: map<u64, Replay.Block>, accounts: MemoryDB, hashable: bool, sha: Sha)
      ensures Valid() && this.blocks == blocks && this.accounts == accounts && this.hashable == hashable
      ensures executor.sha == sha && Fields() == Replay.State(0, ZERO_HASH, ZERO_HASH, {}, 0)
    {
      this.blocks, this.accounts, this.hashable := blocks, accounts, hashable;
      executor := new TransactionExecutor(accounts, sha);
      currentSlot, currentBlockhash, parentBankhash := 0, ZERO_HASH, ZERO_HASH;
      modifiedAccounts, signatureCount := {}, 0;
    }

    ghost predicate Valid() {
      executor.accounts == accounts
    }

    function Fields(): Replay.State
      reads this
    {
      Replay.State(currentSlot, currentBlockhash, parentBankhash, modifiedAccounts, signatureCount)
    }

    ghost function World(): Replay.World
      reads accounts`closed
    {
      Replay.World(executor.sha, blocks, hashable, accounts.closed)
    }

    method Initialize(slot: u64, blockhash: Hash, bankhash: Hash) returns (ok: bool)
      modifies this, accounts`slot
      ensures Fields() == Replay.State(slot, blockhash, bankhash, {}, 0)
      ensures ok == !accounts.closed && accounts.slot == if accounts.closed then old(accounts.slot) else slot
    {
      currentSlot := slot;
      currentBlockhash := blockhash;
      parentBankhash := bankhash;
      modifiedAccounts := {};
      signatureCount := 0;
      ok := accounts.SetSlot(slot);
    }

    method ExecuteTransactions(txs: seq<Tx>)
      requires Valid()
      modifies this`modifiedAccounts, this`signatureCount, accounts`accounts
      ensures Replay.Work(accounts.accounts, modifiedAccounts, signatureCount)
           == Replay.RunTxs(World(), old(accounts.accounts), txs)
    {
      modifiedAccounts := {};
      signatureCount := 0;
      var i := 0;
      while i < |txs|
        invariant 0 <= i <= |txs|
        invariant Replay.Work(accounts.accounts, modifiedAccounts, signatureCount)
               == Replay.RunTxs(World(), old(accounts.accounts), txs[..i])
      {
        var tx := txs[i];
        ghost var before := Replay.RunTxs(World(), old(accounts.accounts), txs[..i]);
        var success, modified := executor.Execute(tx);
        signatureCount := WrapAdd(signatureCount, tx.signatures % 0x1_0000_0000_0000_0000);
        if success {
          modifiedAccounts := modifiedAccounts + Replay.Keys(modified);
        } else if |tx.keys| > 0 {
          modifiedAccounts := modifiedAccounts + {tx.keys[0]};
        }
        assert Replay.Work(accounts.accounts, modifiedAccounts, signatureCount) == Replay.RunTx(World(), before, tx);
        assert txs[..i + 1][..i] == txs[..i];
        i := i + 1;
      }
      assert txs[..|txs|] == txs;
    }

    method ComputeBankHash(block: Replay.Block) returns (h: Option<Hash>)
      ensures var work := Replay.Work(accounts.accounts, modifiedAccounts, signatureCount);
        if !Replay.Hashes(World(), work) then h == None
        else h == Some(executor.sha(BankPre(Info(parentBankhash,
          StateHash.Commit(executor.sha, 2, Replay.ReportedContents(World(), work)), signatureCount, block.blockhash))))
    {
      var modified := SortedKeys(modifiedAccounts);
      var delta := ZERO_HASH;
      if hashable {
        KeysOfNothing(modifiedAccounts);
        if |modified| > 0 && accounts.closed { return None; }
        delta := StateHash.ComputeDeltaHash(executor.sha, accounts.accounts, modified);
      }
      var bank := BankHash.ComputeBankHash(executor.sha, Info(parentBankhash, delta, signatureCount, block.blockhash));
      return Some(bank);
    }

    method ReplaySlot(slot: u64) returns (r: Result<Hash, Replay.ReplayError>)
      requires Valid()
      modifies this, accounts`accounts, accounts`slot
      ensures var s := Replay.ReplaySlot(World(), old(Fields()), old(accounts.accounts), slot);
        r == s.outcome && Fields() == s.st && accounts.accounts == s.db
      ensures accounts.slot == if r.Ok? then slot else old(accounts.slot)
    {
      if slot <= currentSlot && currentSlot > 0 { return Err(Replay.AlreadyProcessed); }
      if slot !in blocks { return Err(Replay.MissingBlock); }
      var block := blocks[slot];
      if currentSlot > 0 && block.previousBlockhash != currentBlockhash { return Err(Replay.BlockhashMismatch); }
      ExecuteTransactions(block.transactions);
      var bank := ComputeBankHash(block);
      if bank.None? { return Err(Replay.HashFailed); }
      currentSlot := slot;
      currentBlockhash := block.blockhash;
      parentBankhash := bank.value;
      var ok := accounts.SetSlot(slot);
      if !ok { return Err(Replay.SlotNotSaved); }
      return Ok(bank.value);
    }

    /** ReplaySlot, at the next slot of a range. */
    method ReplayNext(slot: u64, ghost start: Replay.State, ghost db0: AccountMap, ghost first: u64,
        ghost results: seq<Hash>)
      returns (r: Result<Hash, Replay.ReplayError>)
      requires Valid() && RangeDone(World(), start, db0, first, results, Fields(), accounts.accounts)
      requires slot == NextSlot(first, |results|)
      modifies this, accounts`accounts, accounts`slot
      ensures r.Ok? ==> currentSlot == slot == accounts.slot && !Wrapped(first, |results|)
      ensures r.Ok? ==> RangeDone(World(), start, db0, first, results + [r.value], Fields(), accounts.accounts)
      ensures r.Err? ==> accounts.slot == old(accounts.slot)
      ensures r.Err? ==> RefusedNext(World(), start, db0, first, results, old(Fields()), old(accounts.accounts),
        r.error, Fields(), accounts.accounts)
    {
      ghost var (st, db) := (Fields(), accounts.accounts);
      r := ReplaySlot(slot);
      if r.Ok? { RangeStep(World(), start, db0, first, results, st, db); }
    }

    /** Replays consecutive slots until one is refused, and reports those accepted. It
        completes exactly when the range is neither empty nor too large, ends short of
        the last uint64 slot, and every slot of it is accepted in turn. The slot counter
        is a uint64: after the last slot there is, it wraps to zero, which is refused. */
    method ReplayRange(first: u64, last: u64)
      returns (results: seq<Hash>, error: Option<RangeError>, ghost st: Replay.State, ghost db: AccountMap)
      requires Valid()
      modifies this, accounts`accounts, accounts`slot
      ensures error.None? <==> Completes(World(), old(Fields()), old(accounts.accounts), first, last)
      ensures !RangeFits(first, last) ==>
        results == [] && error == Some(if last < first then EmptyRange else RangeTooLarge)
      ensures !RangeFits(first, last) ==> Fields() == old(Fields()) && accounts.accounts == old(accounts.accounts)
      ensures RangeFits(first, last) ==> |results| <= last - first + 1
      ensures RangeFits(first, last) ==>
        RangeDone(World(), old(Fields()), old(accounts.accounts), first, results, st, db)
      ensures RangeFits(first, last) ==>
        RangeEnd(World(), old(Fields()), old(accounts.accounts), first, results, st, db, error, Fields(),
          accounts.accounts)
      ensures accounts.slot == if results == [] then old(accounts.slot) else first + |results| - 1
    {
      results, st, db := [], Fields(), accounts.accounts;
      if last < first { return [], Some(EmptyRange), st, db; }
      var size := if last - first + 1 == U64_SIZE then 0 else last - first + 1;
      if size > MAX_SLOTS { return [], Some(RangeTooLarge), st, db; }
      var slot: u64 := first;
      error := None;
      while error.None? && slot <= last
        invariant |results| <= last - first + 1
        invariant if error.None? then slot == NextSlot(first, |results|)
                  else |results| <= last - first || Wrapped(first, |results|)
        invariant RangeDone(World(), old(Fields()), old(accounts.accounts), first, results, st, db)
        invariant RangeEnd(World(), old(Fields()), old(accounts.accounts), first, results, st, db, error, Fields(),
          accounts.accounts)
        invariant accounts.slot == if results == [] then old(accounts.slot) else first + |results| - 1
        decreases error.None?, U64_SIZE - first - |results|
      {
        var r := ReplayNext(slot, old(Fields()), old(accounts.accounts), first, results);
        if r.Err? {
          error := Some(FailedAt(slot, r.error));
        } else {
          results, st, db := results + [r.value], Fields(), accounts.accounts;
          slot := if slot == U64_SIZE - 1 then 0 else slot + 1;
        }
      }
      WhenComplete(World(), old(Fields()), old(accounts.accounts), first, last, results, st, db, error, Fields(),
        accounts.accounts);
    }
  }

  datatype RangeError = EmptyRange | RangeTooLarge | FailedAt(slot: u64, error: Replay.ReplayError)

  /** The size is computed in uint64, so that of all slots there are is zero. */
  predicate RangeFits(first: u64, last: u64) {
    first <= last && (last - first + 1 <= MAX_SLOTS || last - first + 1 == U64_SIZE)
  }

  predicate Wrapped(first: u64, n: nat) {
    first + n == U64_SIZE
  }

  function NextSlot(first: u64, n: nat): u64
    requires first + n <= U64_SIZE
  {
    if Wrapped(first, n) then 0 else first + n
  }

  /** The i-th slot from first on is accepted, after those before it. */
  ghost predicate AcceptedAt(w: Replay.World, start: Replay.State, db0: AccountMap, first: u64, i: nat)
    requires first + i < U64_SIZE
  {
    var h := Replay.Requests(w, start, db0, Upward(first, i));
    Replay.ReplaySlot(w, h.st, h.db, first + i).outcome.Ok?
  }

  ghost predicate AllAccepted(w: Replay.World, start: Replay.State, db0: AccountMap, first: u64, n: nat)
    requires first + n <= U64_SIZE
  {
    forall i :: 0 <= i < n ==> AcceptedAt(w, start, db0, first, i)
  }

  /** A range is replayed to its end exactly when it fits, does not contain the last slot
      there is, and every slot of it is accepted in turn. */
  ghost predicate Completes(w: Replay.World, start: Replay.State, db0: AccountMap, first: u64, last: u64) {
    RangeFits(first, last) && last < U64_SIZE - 1 && AllAccepted(w, start, db0, first, last - first + 1)
  }

  lemma WhenComplete(w: Replay.World, start: Replay.State, db0: AccountMap, first: u64, last: u64, results: seq<Hash>,
      st: Replay.State, db: AccountMap, error: Option<RangeError>, st': Replay.State, db': AccountMap)
    requires RangeFits(first, last) && |results| <= last - first + 1
    requires RangeDone(w, start, db0, first, results, st, db)
    requires RangeEnd(w, start, db0, first, results, st, db, error, st', db')
    requires if error.None? then NextSlot(first, |results|) > last
      else |results| <= last - first || Wrapped(first, |results|)
    ensures error.None? <==> Completes(w, start, db0, first, last)
  {
    if error.Some? && |results| <= last - first { assert !AcceptedAt(w, start, db0, first, |results|); }
  }

  /** The slots from first on, as many as there are results, were all accepted with
      these bank hashes and led to this state. */
  ghost predicate RangeDone(w: Replay.World, start: Replay.State, db0: AccountMap, first: u64, results: seq<Hash>,
      st: Replay.State, db: AccountMap)
  {
    && first + |results| <= U64_SIZE
    && AllAccepted(w, start, db0, first, |results|)
    && (results != [] ==> st.slot == first + |results| - 1)
    && var h := Replay.Requests(w, start, db0, Upward(first, |results|));
      h.st == st && h.db == db && Banks(h.log) == results
  }

  /** Asked in state st, the next slot is refused for this reason, leading to the state
      given last. */
  ghost predicate RefusedNext(w: Replay.World, start: Replay.State, db0: AccountMap, first: u64, results: seq<Hash>,
      st: Replay.State, db: AccountMap, e: Replay.ReplayError, st': Replay.State, db': AccountMap)
  {
    && first + |results| <= U64_SIZE
    && var s := Replay.ReplaySlot(w, st, db, NextSlot(first, |results|));
      s.outcome == Err(e) && s.st == st' && s.db == db'
  }

  /** How the replayer was left: in the state after the results, or by the refusal of
      the slot after them. */
  ghost predicate RangeEnd(w: Replay.World, start: Replay.State, db0: AccountMap, first: u64, results: seq<Hash>,
      st: Replay.State, db: AccountMap, error: Option<RangeError>, st': Replay.State, db': AccountMap)
  {
    && first + |results| <= U64_SIZE
    && match error
       case None => st' == st && db' == db
       case Some(FailedAt(slot, e)) =>
         slot == NextSlot(first, |results|) && RefusedNext(w, start, db0, first, results, st, db, e, st', db')
       case _ => false
  }

  lemma RangeStep(w: Replay.World, start: Replay.State, db0: AccountMap, first: u64, results: seq<Hash>,
      st: Replay.State, db: AccountMap)
    requires RangeDone(w, start, db0, first, results, st, db)
    requires Replay.ReplaySlot(w, st, db, NextSlot(first, |results|)).outcome.Ok?
    ensures !Wrapped(first, |results|)
    ensures var s := Replay.ReplaySlot(w, st, db, NextSlot(first, |results|));
      RangeDone(w, start, db0, first, results + [s.outcome.value], s.st, s.db)
  {
    var n := NextSlot(first, |results|);
    AcceptedStep(w, st, db, n);
    RangeStepAt(w, start, db0, first, results, st, db);
  }

  lemma RangeStepAt(w: Replay.World, start: Replay.State, db0: AccountMap, first: u64, results: seq<Hash>,
      st: Replay.State, db: AccountMap)
    requires RangeDone(w, start, db0, first, results, st, db) && first + |results| < U64_SIZE
    requires Replay.ReplaySlot(w, st, db, first + |results|).outcome.Ok?
    ensures var s := Replay.ReplaySlot(w, st, db, first + |results|);
      RangeDone(w, start, db0, first, results + [s.outcome.value], s.st, s.db)
  {
    var s := Replay.ReplaySlot(w, st, db, first + |results|);
    AcceptedStep(w, st, db, first + |results|);
    RangeStepTo(w, start, db0, first, results, Replay.Requests(w, start, db0, Upward(first, |results|)), s);
  }

  lemma RangeStepTo(w: Replay.World, start: Replay.State, db0: AccountMap, first: u64, results: seq<Hash>,
      h: Replay.History, s: Replay.Step)
    requires first + |results| < U64_SIZE && AllAccepted(w, start, db0, first, |results|)
    requires h == Replay.Requests(w, start, db0, Upward(first, |results|)) && Banks(h.log) == results
    requires s == Replay.ReplaySlot(w, h.st, h.db, first + |results|) && s.outcome.Ok?
    requires |s.log| == 1 && s.log[0].bank == s.outcome.value && s.st.slot == first + |results|
    ensures RangeDone(w, start, db0, first, results + [s.outcome.value], s.st, s.db)
  {
    Extends(w, start, db0, first, |results|, h, s);
    RangeGrown(w, start, db0, first, results, h.log, s, Upward(first, |results| + 1));
  }

  lemma Extends(w: Replay.World, start: Replay.State, db0: AccountMap, first: u64, n: nat, h: Replay.History,
      s: Replay.Step)
    requires first + n < U64_SIZE && AllAccepted(w, start, db0, first, n)
    requires h == Replay.Requests(w, start, db0, Upward(first, n))
    requires s == Replay.ReplaySlot(w, h.st, h.db, first + n) && s.outcome.Ok?
    ensures AllAccepted(w, start, db0, first, n + 1)
    ensures Replay.Requests(w, start, db0, Upward(first, n + 1)) == Replay.History(s.st, s.db, h.log + s.log)
  {
    NextRequest(w, start, db0, first, n, h, s);
    AcceptedNext(w, start, db0, first, n, h, s);
  }

  lemma RangeGrown(w: Replay.World, start: Replay.State, db0: AccountMap, first: u64, results: seq<Hash>,
      log: seq<Entry>, s: Replay.Step, slots: seq<u64>)
    requires first + |results| < U64_SIZE && AllAccepted(w, start, db0, first, |results| + 1)
    requires Banks(log) == results && s.outcome.Ok? && s.st.slot == first + |results|
    requires |s.log| == 1 && s.log[0].bank == s.outcome.value && slots == Upward(first, |results| + 1)
    requires Replay.Requests(w, start, db0, slots) == Replay.History(s.st, s.db, log + s.log)
    ensures RangeDone(w, start, db0, first, results + [s.outcome.value], s.st, s.db)
  {
    BanksExtended(log, s.log, s.outcome.value);
    Gathered(w, start, db0, first, results + [s.outcome.value], |results| + 1, s, log + s.log);
  }

  lemma AcceptedNext(w: Replay.World, start: Replay.State, db0: AccountMap, first: u64, n: nat, h: Replay.History,
      s: Replay.Step)
    requires first + n < U64_SIZE && AllAccepted(w, start, db0, first, n)
    requires h == Replay.Requests(w, start, db0, Upward(first, n))
    requires s == Replay.ReplaySlot(w, h.st, h.db, first + n) && s.outcome.Ok?
    ensures AllAccepted(w, start, db0, first, n + 1)
  {
    assert AcceptedAt(w, start, db0, first, n);
  }

  lemma Gathered(w: Replay.World, start: Replay.State, db0: AccountMap, first: u64, results: seq<Hash>, n: nat,
      s: Replay.Step, log: seq<Entry>)
    requires |results| == n > 0 && first + n <= U64_SIZE && AllAccepted(w, start, db0, first, n)
    requires Replay.Requests(w, start, db0, Upward(first, n)) == Replay.History(s.st, s.db, log)
    requires Banks(log) == results && s.st.slot == first + n - 1
    ensures RangeDone(w, start, db0, first, results, s.st, s.db)
  {
  }

  lemma AcceptedStep(w: Replay.World, st: Replay.State, db: AccountMap, slot: u64)
    requires Replay.ReplaySlot(w, st, db, slot).outcome.Ok?
    ensures var s := Replay.ReplaySlot(w, st, db, slot);
      |s.log| == 1 && s.log[0].bank == s.outcome.value && s.st.slot == slot && (st.slot > 0 ==> slot > st.slot)
  {
  }

  lemma NextRequest(w: Replay.World, start: Replay.State, db0: AccountMap, first: u64, n: nat, h: Replay.History,
      s: Replay.Step)
    requires first + n < U64_SIZE && Replay.Requests(w, start, db0, Upward(first, n)) == h
    requires s == Replay.ReplaySlot(w, h.st, h.db, first + n)
    ensures Replay.Requests(w, start, db0, Upward(first, n + 1)) == Replay.History(s.st, s.db, h.log + s.log)
  {
    assert Upward(first, n + 1) == Upward(first, n) + [first + n];
    OneMore(w, start, db0, Upward(first, n), first + n, h, s, Upward(first, n + 1));
  }

  lemma OneMore(w: Replay.World, start: Replay.State, db0: AccountMap, before: seq<u64>, slot: u64,
      h: Replay.History, s: Replay.Step, slots: seq<u64>)
    requires slots == before + [slot]
    requires h == Replay.Requests(w, start, db0, before) && s == Replay.ReplaySlot(w, h.st, h.db, slot)
    ensures Replay.Requests(w, start, db0, slots) == Replay.History(s.st, s.db, h.log + s.log)
  {
    assert slots[..|slots| - 1] == before;
    assert Replay.Requests(w, start, db0, slots) == Replay.LastRequest(w, start, db0, slots);
  }

  lemma BanksExtended(log: seq<Entry>, more: seq<Entry>, bank: Hash)
    requires |more| == 1 && more[0].bank == bank
    ensures Banks(log + more) == Banks(log) + [bank]
  {
  }

  function Upward(first: nat, n: nat): (slots: seq<u64>)
    requires first + n <= U64_SIZE
    ensures |slots| == n
  {
    seq(n, i requires 0 <= i < n => first + i)
  }

  function Banks(log: seq<Entry>): (banks: seq<Hash>)
    ensures |banks| == |log|
  {
    seq(|log|, i requires 0 <= i < |log| => log[i].bank)
  }

  lemma KeysOfNothing(m: set<Pubkey>)
    ensures |StateHash.Sort(StateHash.AnyOrder(m))| == 0 <==> m == {}
  {
    StateHash.SortSorts(StateHash.AnyOrder(m));
    assert |StateHash.Sort(StateHash.AnyOrder(m))| == |multiset(StateHash.AnyOrder(m))| == |multiset(m)|;
  }
}
