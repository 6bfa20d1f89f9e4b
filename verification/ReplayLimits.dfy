/** What a bank hash leaves out (pkg/replayer/replayer.go, lines 303-338): everything,
    over a database that cannot hash itself, and the keys of deleted accounts over one
    that can. */
module ReplayLimits {
  import opened Bytes
  import opened ExecAccount
  import opened Accounts
  import System
  import opened Store
  import opened Transactions
  import opened TxLaws
  import opened TxExecutor
  import opened Merkle
  import opened BankHash
  import opened Replay
  import StateHash

  ghost predicate SameCounts(log: seq<Entry>, other: seq<Entry>) {
    |log| == |other| && forall i :: 0 <= i < |log| ==>
      log[i].info.signatures == other[i].info.signatures && log[i].info.blockhash == other[i].info.blockhash
  }

  lemma {:induction false} PlainChains(sha: Sha, start: Hash, log: seq<Entry>, other: seq<Entry>)
    requires Chained(sha, start, log) && Chained(sha, start, other) && Plain(log) && Plain(other)
    requires SameCounts(log, other)
    ensures BankBefore(start, log, |log|) == BankBefore(start, other, |other|)
    decreases |log|
  {
    if log != [] {
      var n := |log| - 1;
      ChainPrefix(sha, start, log, n);
      ChainPrefix(sha, start, other, n);
      PlainChains(sha, start, log[..n], other[..n]);
      assert Sealed(sha, log[n]) && Sealed(sha, other[n]);
      assert log[n].info == other[n].info;
    }
  }

  /** Without a database that hashes itself, what a bank hash says of a run is exactly the
      signature counts and blockhashes of its slots: whatever the databases, requests and
      transactions, equally many accepted slots end in one bank hash if these agree, and
      only if, or ChainBreak computes a break of the hash function. */
  lemma PlainBankHash(w: World, start: State, db: AccountMap, slots: seq<u64>,
      v: World, other: State, db2: AccountMap, slots2: seq<u64>)
    requires !w.hashable && !v.hashable && w.sha == v.sha && start.bankhash == other.bankhash
    requires |Requests(w, start, db, slots).log| == |Requests(v, other, db2, slots2).log|
    ensures var (h, g) := (Requests(w, start, db, slots), Requests(v, other, db2, slots2));
      && (SameCounts(h.log, g.log) ==> h.st.bankhash == g.st.bankhash)
      && (h.st.bankhash == g.st.bankhash ==>
        SameCounts(h.log, g.log) || IsBreak(w.sha, ChainBreak(w.sha, h.log, g.log)))
  {
    RunChained(w, start, db, slots);
    RunChained(v, other, db2, slots2);
    var (h, g) := (Requests(w, start, db, slots), Requests(v, other, db2, slots2));
    if SameCounts(h.log, g.log) { PlainChains(w.sha, start.bankhash, h.log, g.log); }
    if h.st.bankhash == g.st.bankhash { RunsBind(w, start, db, slots, v, other, db2, slots2); }
  }

  // ------------------------------------------------------- one slot, one transfer

  const START: State := State(1, ZERO_HASH, ZERO_HASH, {}, 0)

  /** A world whose one block holds one transaction. */
  function OneBlock(sha: Sha, hashable: bool, tx: Tx): World {
    World(sha, map[2 := Block(ZERO_HASH, ZERO_HASH, [tx])], hashable, false)
  }

  function TransferTx(k: Pubkey, m: Pubkey, n: u64): Tx {
    TwoAccounts(k, m, Header(1, 0, 1), [0, 1], System.Transfer(n))
  }

  function Holding(n: u64): Account {
    Account(n, [], ZERO_HASH, false, 0)
  }

  /** What a transfer between plain accounts leaves in the database. */
  lemma TransferResult(sha: Sha, db: AccountMap, k: Pubkey, m: Pubkey, have: u64, n: u64)
    requires k != m && k in db && db[k] == Holding(have) && m !in db && n <= have
    ensures var o := Execute(sha, db, TransferTx(k, m, n));
      o.success && o.modified == [k, m] && o.db == MemSet(MemSet(db, k, Holding(have - n)), m, Holding(n))
  {
    var (tx, op) := (TransferTx(k, m, n), System.Transfer(n));
    TwoAccountsRun(sha, db, k, m, Header(1, 0, 1), [0, 1], op);
    var (s, e) := (LoadAll(db, tx), TxEnv(sha));
    assert s[0] == LoadOne(db, tx, 0) && s[1] == LoadOne(db, tx, 1);
    var t := System.ExecTransfer(s, [0, 1], n).value;
    assert RunSome(e, tx, s, 0) == Ok(s);
    assert RunIns(e, tx, s, tx.instructions[0]) == Ok(t);
    assert ToAccount(t[0]) == Holding(have - n) && ToAccount(t[1]) == Holding(n);
    OneInstructionSaves(tx, 0);
    OneInstructionSaves(tx, 1);
    OneInstructionSaves(tx, 2);
    TwoSaved(db, tx, t);
  }

  lemma TwoSaved(db: AccountMap, tx: Tx, t: System.Accts)
    requires |tx.keys| == |t| == 3 && Saved(tx, 0) && Saved(tx, 1) && !Saved(tx, 2)
    ensures Save(db, tx, t, 3) == MemSet(MemSet(db, tx.keys[0], ToAccount(t[0])), tx.keys[1], ToAccount(t[1]))
    ensures SavedKeys(tx, 3) == [tx.keys[0], tx.keys[1]]
  {
    assert Save(db, tx, t, 1) == MemSet(Save(db, tx, t, 0), tx.keys[0], ToAccount(t[0]));
    assert Save(db, tx, t, 2) == MemSet(Save(db, tx, t, 1), tx.keys[1], ToAccount(t[1]));
    assert SavedKeys(tx, 1) == SavedKeys(tx, 0) + [tx.keys[0]];
    assert SavedKeys(tx, 2) == SavedKeys(tx, 1) + [tx.keys[1]];
  }

  /** The run of one request, on one transaction that succeeds. */
  lemma OneRequest(sha: Sha, hashable: bool, db: AccountMap, tx: Tx)
    requires Execute(sha, db, tx).success && tx.signatures == 0
    ensures var (w, o) := (OneBlock(sha, hashable, tx), Execute(sha, db, tx));
      var (h, work) := (Requests(w, START, db, [2]), Work(o.db, Keys(o.modified), 0));
      && h.db == o.db && |h.log| == 1 && h.log[0].modified == Keys(o.modified)
      && h.st.bankhash
        == sha(BankPre(Info(ZERO_HASH, StateHash.Commit(sha, 2, ReportedContents(w, work)), 0, ZERO_HASH)))
  {
    var (w, o) := (OneBlock(sha, hashable, tx), Execute(sha, db, tx));
    assert [2][..0] == [] && [tx][..0] == [];
    assert Requests(w, START, db, []) == History(START, db, []);
    assert Requests(w, START, db, [2]) == LastRequest(w, START, db, [2]);
    assert RunTxs(w, db, []) == Work(db, {}, 0);
    assert RunTxs(w, db, [tx]) == RunLastTx(w, db, [tx]);
    assert {} + Keys(o.modified) == Keys(o.modified);
    var s := ReplaySlot(w, START, db, 2);
    assert [] + s.log == s.log;
  }

  // ------------------------------------------------------------------- witnesses

  /** One bank hash, two databases: without hashing, a transfer of five and of six. */
  lemma PlainWitness(sha: Sha, k: Pubkey, m: Pubkey)
    requires k != m
    ensures var db: AccountMap := map[k := Holding(10)];
      var (w, v) := (OneBlock(sha, false, TransferTx(k, m, 5)), OneBlock(sha, false, TransferTx(k, m, 6)));
      var (h, g) := (Requests(w, START, db, [2]), Requests(v, START, db, [2]));
      |h.log| == |g.log| == 1 && h.st.bankhash == g.st.bankhash && h.db != g.db
  {
    var db: AccountMap := map[k := Holding(10)];
    TransferResult(sha, db, k, m, 10, 5);
    TransferResult(sha, db, k, m, 10, 6);
    OneRequest(sha, false, db, TransferTx(k, m, 5));
    OneRequest(sha, false, db, TransferTx(k, m, 6));
    assert Execute(sha, db, TransferTx(k, m, 5)).db[k] == Holding(5);
    assert Execute(sha, db, TransferTx(k, m, 6)).db[k] == Holding(4);
  }

  function KeyOf(first: byte): Pubkey {
    [first] + ZeroBytes(31)
  }

  /** The contents behind the delta hash when x was emptied into y, which sorts later. */
  lemma DrainedContents(w: World, after: AccountMap, x: byte, y: byte)
    requires w.hashable && x < y && KeyOf(x) !in after && KeyOf(y) in after
    ensures ReportedContents(w, Work(after, Keys([KeyOf(x), KeyOf(y)]), 0)) == [None, Some((KeyOf(y), after[KeyOf(y)]))]
  {
    var (k, m) := (KeyOf(x), KeyOf(y));
    assert k[0] == x && m[0] == y;
    TwoSorted(k, m);
    TwoContents(after, k, m);
  }

  lemma TwoSorted(k: Pubkey, m: Pubkey)
    requires k[0] < m[0]
    ensures StateHash.Sort(StateHash.AnyOrder(Keys([k, m]))) == [k, m]
  {
    assert k != m && StateHash.Leq(k, m);
    assert multiset(Keys([k, m])) == multiset([k, m]);
    StateHash.SortIsTheOnlySort(StateHash.AnyOrder(Keys([k, m])), [k, m], [k, m]);
  }

  lemma TwoContents(after: AccountMap, k: Pubkey, m: Pubkey)
    requires k !in after && m in after
    ensures StateHash.Contents(after, [k, m]) == [None, Some((m, after[m]))]
  {
  }

  /** Over a database that hashes itself, what was removed matters (DatabaseBindingExact):
      emptying one account or another into a third gives one bank hash and two databases. */
  lemma ReportsNeeded(sha: Sha)
    ensures var db: AccountMap := map[KeyOf(1) := Holding(10), KeyOf(2) := Holding(10)];
      var w := OneBlock(sha, true, TransferTx(KeyOf(1), KeyOf(3), 10));
      var v := OneBlock(sha, true, TransferTx(KeyOf(2), KeyOf(3), 10));
      var (h, g) := (Requests(w, START, db, [2]), Requests(v, START, db, [2]));
      |h.log| == |g.log| == 1 && h.st.bankhash == g.st.bankhash && h.db != g.db && !SameReports(h.log, g.log)
  {
    var (k, l, m) := (KeyOf(1), KeyOf(2), KeyOf(3));
    assert k[0] == 1 && l[0] == 2 && m[0] == 3;
    var db: AccountMap := map[k := Holding(10), l := Holding(10)];
    Drained(sha, db, 1, 3);
    Drained(sha, db, 2, 3);
    var (h, g) := (Requests(OneBlock(sha, true, TransferTx(k, m, 10)), START, db, [2]),
                   Requests(OneBlock(sha, true, TransferTx(l, m, 10)), START, db, [2]));
    assert l in h.db && l !in g.db;
    assert k in h.log[0].modified && k !in g.log[0].modified;
  }

  lemma Drained(sha: Sha, db: AccountMap, x: byte, y: byte)
    requires x < y && KeyOf(x) in db && db[KeyOf(x)] == Holding(10) && KeyOf(y) !in db
    ensures var h := Requests(OneBlock(sha, true, TransferTx(KeyOf(x), KeyOf(y), 10)), START, db, [2]);
      && |h.log| == 1 && h.log[0].modified == Keys([KeyOf(x), KeyOf(y)])
      && h.db == (db - {KeyOf(x)})[KeyOf(y) := Holding(10)]
      && h.st.bankhash == sha(BankPre(Info(ZERO_HASH,
           StateHash.Commit(sha, 2, [None, Some((KeyOf(y), Holding(10)))]), 0, ZERO_HASH)))
  {
    var (k, m) := (KeyOf(x), KeyOf(y));
    assert k[0] == x && m[0] == y;
    var tx := TransferTx(k, m, 10);
    TransferResult(sha, db, k, m, 10, 10);
    OneRequest(sha, true, db, tx);
    DrainedContents(OneBlock(sha, true, tx), (db - {k})[m := Holding(10)], x, y);
  }
}
