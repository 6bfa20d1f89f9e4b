/** Nonce accounts in the database, over whole runs of transactions: what keeps them
    safe, and how often they advance. */
module TxNonce {
  import opened Bytes
  import opened ExecAccount
  import opened Accounts
  import opened System
  import opened SystemLaws
  import opened SystemWire
  import opened Store
  import opened Transactions
  import opened TxLaws

  // ------------------------------------------------------- nonces in the database

  ghost function DbRun(sha: Sha, db: AccountMap, txs: seq<Tx>): AccountMap {
    if txs == [] then db else Execute(sha, DbRun(sha, db, txs[..|txs| - 1]), txs[|txs| - 1]).db
  }

  /** A nonce account stored under k. */
  predicate NonceAt(db: AccountMap, k: Pubkey) {
    k in db && |db[k].data| >= NONCE_SIZE && NonceState(db[k].data) == 1
  }

  predicate SignedBy(tx: Tx, key: Pubkey) {
    exists i :: 0 <= i < |tx.keys| && i < tx.header.signers && tx.keys[i] == key
  }

  /** The nonce bytes of position i are those of d. */
  predicate HoldsNonce(t: Accts, i: nat, d: seq<byte>)
    requires i < |t| && |d| >= NONCE_SIZE
  {
    |t[i].data| >= NONCE_SIZE && t[i].data[..80] == d[..80]
  }

  lemma {:induction false} NonceRun(e: Env, tx: Tx, s: Accts, n: nat, i: nat)
    requires n <= |tx.instructions| && RunSome(e, tx, s, n).Ok?
    requires i < |s| && NonceInit(s[i]) && !Signed(s, Authority(s[i]))
    ensures |RunSome(e, tx, s, n).value| == |s|
    ensures NonceInit(RunSome(e, tx, s, n).value[i]) && HoldsNonce(RunSome(e, tx, s, n).value, i, s[i].data)
  {
    if n > 0 {
      NonceRun(e, tx, s, n - 1, i);
      RunSomeKeeps(e, tx, s, n - 1);
      var u := RunSome(e, tx, s, n - 1).value;
      NonceIns(e, tx, s, u, tx.instructions[n - 1], i);
    }
  }

  lemma NonceIns(e: Env, tx: Tx, s: Accts, u: Accts, ins: Ins, i: nat)
    requires AllKept(s, u) && RunIns(e, tx, u, ins).Ok?
    requires i < |s| && NonceInit(s[i]) && !Signed(s, Authority(s[i]))
    requires NonceInit(u[i]) && HoldsNonce(u, i, s[i].data)
    ensures var t := RunIns(e, tx, u, ins).value;
      |t| == |s| && NonceInit(t[i]) && HoldsNonce(t, i, s[i].data)
  {
    if tx.keys[ins.program] == PROGRAM_ID {
      var c := Call(e, ins.accounts, ins.data);
      SameNonce(s[i], u[i]);
      assert forall j :: 0 <= j < |s| ==> Kept(s[j], u[j]);
      assert !Signed(u, Authority(u[i]));
      UntouchedNonce(u, c, i);
    }
  }

  predicate StoredNonce(db: AccountMap, k: Pubkey, d: seq<byte>)
    requires |d| >= NONCE_SIZE
  {
    k in db && |db[k].data| >= NONCE_SIZE && db[k].data[..80] == d[..80]
  }

  lemma StoredIsNonce(db: AccountMap, k: Pubkey, d: seq<byte>)
    requires |d| >= NONCE_SIZE && StoredNonce(db, k, d) && NonceState(d) == 1
    ensures NonceAt(db, k) && db[k].data[8..40] == d[8..40]
  {
    assert forall x: seq<byte> :: |x| >= 80 ==> x[..80][4..8] == x[4..8] && x[..80][8..40] == x[8..40];
    assert db[k].data[4..8] == d[4..8];
  }

  lemma NonceTx(sha: Sha, db: AccountMap, tx: Tx, k: Pubkey)
    requires NonceAt(db, k) && !SignedBy(tx, db[k].data[8..40])
    ensures StoredNonce(Execute(sha, db, tx).db, k, db[k].data)
  {
    if Execute(sha, db, tx).success {
      var s := LoadAll(db, tx);
      SaveLast(db, tx, Final(sha, db, tx), |tx.keys|, k);
      var c := LastCopy(tx, |tx.keys|, k);
      if c.Some? {
        assert s[c.value] == LoadOne(db, tx, c.value);
        NonceRun(TxEnv(sha), tx, s, |tx.instructions|, c.value);
      }
    }
  }

  /** A nonce account in the database is frozen over any run of transactions none of
      which its stored authority signs. */
  lemma {:induction false} NonceFrozen(sha: Sha, db: AccountMap, txs: seq<Tx>, k: Pubkey)
    requires NonceAt(db, k) && forall i :: 0 <= i < |txs| ==> !SignedBy(txs[i], db[k].data[8..40])
    ensures StoredNonce(DbRun(sha, db, txs), k, db[k].data)
    decreases |txs|
  {
    if txs != [] {
      var before := txs[..|txs| - 1];
      NonceFrozen(sha, db, before, k);
      var m := DbRun(sha, db, before);
      StoredIsNonce(m, k, db[k].data);
      NonceTx(sha, m, txs[|txs| - 1], k);
    }
  }

  // -------------------------------------------- the executor's fixed blockhash

  /** Under k the database holds nothing tagged as a nonce other than one that stores
      the zero blockhash, the only one the executor ever supplies. */
  predicate ZeroNonce(db: AccountMap, k: Pubkey) {
    k in db ==> ZeroTagged(db[k].data)
  }

  predicate ZeroTagged(d: seq<byte>) {
    |d| > 4 && d[4] == 1 ==> |d| >= NONCE_SIZE && d[40..72] == ZERO_HASH
  }

  lemma SpentIns(e: Env, tx: Tx, s: Accts, ins: Ins, i: nat)
    requires e.blockhash == ZERO_HASH && i < |s| && ZeroTagged(s[i].data) && RunIns(e, tx, s, ins).Ok?
    ensures var t := RunIns(e, tx, s, ins).value; |t| == |s| && ZeroTagged(t[i].data)
  {
    if tx.keys[ins.program] == PROGRAM_ID {
      assert Spent(e, s[i]);
      SpentStep(e, s, ins.accounts, Parse(ins.data).value, i);
    }
  }

  predicate SpentAt(t: Accts, i: nat) {
    i < |t| && ZeroTagged(t[i].data)
  }

  ghost predicate SpentBy(e: Env, tx: Tx, s: Accts, n: nat, i: nat) {
    n <= |tx.instructions| && RunSome(e, tx, s, n).Ok? && SpentAt(RunSome(e, tx, s, n).value, i)
  }

  lemma SpentNext(e: Env, tx: Tx, s: Accts, m: nat, n: nat, i: nat)
    requires e.blockhash == ZERO_HASH && m < n <= |tx.instructions| && RunSome(e, tx, s, n).Ok?
    requires SpentBy(e, tx, s, m, i)
    ensures SpentBy(e, tx, s, m + 1, i)
  {
    OkBefore(e, tx, s, m + 1, n);
    StepOk(e, tx, s, m);
    SpentIns(e, tx, RunSome(e, tx, s, m).value, tx.instructions[m], i);
  }

  lemma {:induction false} StepByStep(p: nat -> bool, m: nat, n: nat)
    requires m <= n && p(m) && forall j :: m <= j < n && p(j) ==> p(j + 1)
    ensures p(n)
    decreases n - m
  {
    if m < n { StepByStep(p, m + 1, n); }
  }

  /** Once spent, a position is spent for the rest of the transaction. */
  lemma SpentFrom(e: Env, tx: Tx, s: Accts, m: nat, n: nat, i: nat)
    requires e.blockhash == ZERO_HASH && m <= n <= |tx.instructions|
    requires SpentBy(e, tx, s, m, i) && RunSome(e, tx, s, n).Ok?
    ensures SpentBy(e, tx, s, n, i)
  {
    forall j: nat | m <= j < n && SpentBy(e, tx, s, j, i) ensures SpentBy(e, tx, s, j + 1, i) {
      SpentNext(e, tx, s, j, n, i);
    }
    StepByStep((j: nat) => SpentBy(e, tx, s, j, i), m, n);
  }

  lemma OkBefore(e: Env, tx: Tx, s: Accts, m: nat, n: nat)
    requires m <= n <= |tx.instructions| && RunSome(e, tx, s, n).Ok?
    ensures RunSome(e, tx, s, m).Ok?
  {
    if RunSome(e, tx, s, m).Err? { FailedStays(e, tx, s, m, n); }
  }

  lemma ZeroNonceTx(sha: Sha, db: AccountMap, tx: Tx, k: Pubkey)
    requires ZeroNonce(db, k)
    ensures ZeroNonce(Execute(sha, db, tx).db, k)
  {
    if Execute(sha, db, tx).success {
      var s := LoadAll(db, tx);
      SaveLast(db, tx, Final(sha, db, tx), |tx.keys|, k);
      var c := LastCopy(tx, |tx.keys|, k);
      if c.Some? {
        assert s[c.value] == LoadOne(db, tx, c.value) && RunSome(TxEnv(sha), tx, s, 0) == Ok(s);
        SpentFrom(TxEnv(sha), tx, s, 0, |tx.instructions|, c.value);
      }
    }
  }

  lemma {:induction false} ZeroNonceKept(sha: Sha, db: AccountMap, txs: seq<Tx>, k: Pubkey)
    requires ZeroNonce(db, k)
    ensures ZeroNonce(DbRun(sha, db, txs), k)
    decreases |txs|
  {
    if txs != [] {
      ZeroNonceKept(sha, db, txs[..|txs| - 1], k);
      ZeroNonceTx(sha, DbRun(sha, db, txs[..|txs| - 1]), txs[|txs| - 1], k);
    }
  }

  /** The instruction is for the System Program, and reads as op. */
  predicate Asks(tx: Tx, ins: Ins, op: Instr) {
    ins.program < |tx.keys| && tx.keys[ins.program] == PROGRAM_ID && Parse(ins.data) == Ok(op)
  }

  /** Instruction m of the transaction asks to advance the nonce at position i. */
  predicate AdvancesPosition(tx: Tx, m: nat, i: nat) {
    && m < |tx.instructions| && Asks(tx, tx.instructions[m], AdvanceNonce)
    && |tx.instructions[m].accounts| > 0 && tx.instructions[m].accounts[0] == i
  }

  /** Instruction m of the transaction asks to advance the nonce stored under k. */
  predicate AdvancesAt(tx: Tx, m: nat, k: Pubkey) {
    && m < |tx.instructions| && |tx.instructions[m].accounts| > 0
    && var i := tx.instructions[m].accounts[0];
      AdvancesPosition(tx, m, i) && i < |tx.keys| && tx.keys[i] == k
  }

  lemma AdvanceRefused(e: Env, tx: Tx, s: Accts, m: nat, i: nat)
    requires e.blockhash == ZERO_HASH && AdvancesPosition(tx, m, i) && (i < |s| ==> ZeroTagged(s[i].data))
    ensures RunIns(e, tx, s, tx.instructions[m]).Err?
  {
    var ins := tx.instructions[m];
    if IndexesFit(ins, |s|) && NonceInit(s[i]) { TagByte(s[i].data); }
  }

  /** Because the executor always supplies the zero blockhash, no transaction ever
      advances a nonce that this executor has initialized: from any database where k is
      no nonce, or one that already stores that hash, every transaction that tries
      fails, after any run. */
  lemma NonceNeverAdvances(sha: Sha, db: AccountMap, txs: seq<Tx>, tx: Tx, m: nat, k: Pubkey)
    requires ZeroNonce(db, k) && AdvancesAt(tx, m, k)
    ensures !Execute(sha, DbRun(sha, db, txs), tx).success
  {
    var (e, now, i) := (TxEnv(sha), DbRun(sha, db, txs), tx.instructions[m].accounts[0]);
    ZeroNonceKept(sha, db, txs, k);
    var s := LoadAll(now, tx);
    assert s[i] == LoadOne(now, tx, i) && RunSome(e, tx, s, 0) == Ok(s);
    if RunSome(e, tx, s, m).Ok? {
      SpentFrom(e, tx, s, 0, m, i);
      AdvanceRefused(e, tx, RunSome(e, tx, s, m).value, m, i);
    }
    StepFails(e, tx, s, m);
  }

  /** One transaction does not advance one position twice, however many copies of the
      nonce it has. */
  lemma NotTwiceInOne(sha: Sha, db: AccountMap, tx: Tx, m: nat, n: nat, i: nat)
    requires AdvancesPosition(tx, m, i) && AdvancesPosition(tx, n, i) && m < n
    ensures !Execute(sha, db, tx).success
  {
    var (e, s) := (TxEnv(sha), LoadAll(db, tx));
    if RunSome(e, tx, s, n).Ok? {
      SpentAfter(e, tx, s, m, n, i);
      AdvanceRefused(e, tx, RunSome(e, tx, s, n).value, n, i);
    }
    StepFails(e, tx, s, n);
  }

  /** After a successful advance its position is spent. */
  lemma SpentAfter(e: Env, tx: Tx, s: Accts, m: nat, n: nat, i: nat)
    requires e.blockhash == ZERO_HASH && AdvancesPosition(tx, m, i) && m < n <= |tx.instructions|
    requires RunSome(e, tx, s, n).Ok?
    ensures SpentAt(RunSome(e, tx, s, n).value, i)
  {
    OkBefore(e, tx, s, m, n);
    OkBefore(e, tx, s, m + 1, n);
    StepOk(e, tx, s, m);
    AdvancedIns(e, tx, RunSome(e, tx, s, m).value, m, i);
    SpentFrom(e, tx, s, m + 1, n, i);
  }

  lemma AdvancedIns(e: Env, tx: Tx, s: Accts, m: nat, i: nat)
    requires e.blockhash == ZERO_HASH && AdvancesPosition(tx, m, i) && RunIns(e, tx, s, tx.instructions[m]).Ok?
    ensures SpentAt(RunIns(e, tx, s, tx.instructions[m]).value, i)
  {
    var t := ExecAdvance(e, s, tx.instructions[m].accounts).value;
    assert t[i].data[40..72] == ZERO_HASH;
  }

  // -------------------------------------------------- nonces from somewhere else

  /** Under k the database holds an initialized nonce that can still advance here: the
      hash it stores is not the zero one. */
  predicate LiveNonce(db: AccountMap, k: Pubkey) {
    NonceAt(db, k) && db[k].data[40..72] != ZERO_HASH
  }

  lemma LiveIsNotZero(db: AccountMap, k: Pubkey)
    requires LiveNonce(db, k)
    ensures !ZeroNonce(db, k)
  {
    TagByte(db[k].data);
  }

  /** In the database and by the header, everything that the first instruction needs to
      advance k, the stored hash apart. */
  predicate MayAdvance(db: AccountMap, tx: Tx, k: Pubkey)
    requires AdvancesAt(tx, 0, k)
  {
    var idx := tx.instructions[0].accounts;
    && IndexesFit(tx.instructions[0], |tx.keys|) && |idx| >= 3
    && NonceAt(db, k) && Writable(tx, idx[0])
    && idx[2] < tx.header.signers && tx.keys[idx[2]] == db[k].data[8..40]
  }

  /** An advance that is the only instruction succeeds exactly when it is authorized and
      the stored hash is not the zero one. */
  lemma AdvanceExact(sha: Sha, db: AccountMap, tx: Tx, k: Pubkey)
    requires |tx.instructions| == 1 && AdvancesAt(tx, 0, k)
    ensures Execute(sha, db, tx).success <==> MayAdvance(db, tx, k) && db[k].data[40..72] != ZERO_HASH
  {
    var (e, s, ins) := (TxEnv(sha), LoadAll(db, tx), tx.instructions[0]);
    assert RunSome(e, tx, s, 0) == Ok(s);
    assert RunSome(e, tx, s, 1) == RunNext(e, tx, s, 1);
    assert Execute(sha, db, tx).success == RunIns(e, tx, s, ins).Ok?;
    if IndexesFit(ins, |s|) {
      assert RunIns(e, tx, s, ins).Ok? == ExecAdvance(e, s, ins.accounts).Ok?;
      assert s[ins.accounts[0]] == LoadOne(db, tx, ins.accounts[0]);
      if |ins.accounts| >= 3 { assert s[ins.accounts[2]] == LoadOne(db, tx, ins.accounts[2]); }
    }
  }

  // ------------------------------------------------------- when a nonce is used up

  /** Instruction m withdraws from the nonce at position i. */
  predicate WithdrawsFrom(tx: Tx, m: nat, i: nat) {
    && m < |tx.instructions|
    && var ins := tx.instructions[m];
      && ins.program < |tx.keys| && tx.keys[ins.program] == PROGRAM_ID
      && Parse(ins.data).Ok? && Parse(ins.data).value.WithdrawNonce?
      && |ins.accounts| > 0 && ins.accounts[0] == i
  }

  /** Instruction m uses the nonce at position i up: it advances it, or withdraws all
      that the position has by then. Read off the transaction and the balance before. */
  predicate UsesUp(db: AccountMap, tx: Tx, m: nat, i: nat)
    requires i < |tx.keys|
  {
    || AdvancesPosition(tx, m, i)
    || (WithdrawsFrom(tx, m, i) && Balance(db, tx.keys[i]) + Net(tx, m + 1, i) == 0)
  }

  predicate UsedUp(db: AccountMap, tx: Tx, n: nat, i: nat)
    requires i < |tx.keys|
  {
    exists m :: 0 <= m < n && UsesUp(db, tx, m, i)
  }

  /** The copy that is saved last is used up. */
  predicate LastCopyUsedUp(db: AccountMap, tx: Tx, k: Pubkey) {
    var c := LastCopy(tx, |tx.keys|, k);
    c.Some? && UsedUp(db, tx, |tx.instructions|, c.value)
  }

  predicate LivePosition(a: Acct, hash: Hash) {
    NonceInit(a) && a.data[40..72] == hash
  }

  lemma LiveIns(e: Env, s: Accts, idx: seq<nat>, op: Instr, i: nat, hash: Hash)
    requires InRange(idx, |s|) && i < |s| && LivePosition(s[i], hash) && Exec(e, s, idx, op).Ok?
    ensures var t := Exec(e, s, idx, op).value;
      && |t| == |s|
      && (!(op.AdvanceNonce? && idx[0] == i) && !(op.WithdrawNonce? && idx[0] == i && t[i].lamports == 0)
          ==> LivePosition(t[i], hash))
      && (op.WithdrawNonce? && idx[0] == i && t[i].lamports == 0 ==> ZeroTagged(t[i].data))
  {
    NonceStep(e, s, idx, op, i);
    var (a, b) := (s[i], Exec(e, s, idx, op).value[i]);
    if op.WithdrawNonce? && idx[0] == i { WithdrawEntitled(e, s, idx, op.lamports); }
    if Entitled(s, idx, op, i) { LiveMoved(e, a, b, op, hash); } else { LiveExtended(a, b, hash); }
  }

  lemma WithdrawEntitled(e: Env, s: Accts, idx: seq<nat>, n: u64)
    requires InRange(idx, |s|) && ExecWithdraw(e, s, idx, n).Ok?
    ensures NonceInit(s[idx[0]]) && Entitled(s, idx, WithdrawNonce(n), idx[0])
  {
  }

  lemma LiveExtended(a: Acct, b: Acct, hash: Hash)
    requires LivePosition(a, hash) && |b.data| >= |a.data| && b.data[..|a.data|] == a.data
    ensures LivePosition(b, hash)
  {
    assert b.data[4..8] == b.data[..|a.data|][4..8] && b.data[40..72] == b.data[..|a.data|][40..72];
  }

  lemma LiveMoved(e: Env, a: Acct, b: Acct, op: Instr, hash: Hash)
    requires LivePosition(a, hash) && |b.data| == |a.data| && NonceMoved(e, a, b, op)
    ensures op.AuthorizeNonce? || (op.WithdrawNonce? && b.lamports != 0) ==> LivePosition(b, hash)
    ensures op.WithdrawNonce? && b.lamports == 0 ==> ZeroTagged(b.data)
  {
    var (x, y) := (a.data, b.data);
    if op.AuthorizeNonce? {
      assert y[4..8] == y[..8][4..8] && x[4..8] == x[..8][4..8];
      assert y[40..72] == y[40..][..32] == x[40..][..32];
    }
    if op.WithdrawNonce? && b.lamports == 0 {
      assert y[4..8] == LE(0, 4);
      assert y[4..8][0] == 0;
    }
  }

  /** What has become of a loaded copy: spent, or initialized with the hash it had. */
  predicate Fate(db: AccountMap, tx: Tx, t: Accts, i: nat, used: bool)
    requires i < |tx.keys| && LiveNonce(db, tx.keys[i])
  {
    i < |t| && if used then ZeroTagged(t[i].data) else LivePosition(t[i], db[tx.keys[i]].data[40..72])
  }

  lemma FateIns(e: Env, db: AccountMap, tx: Tx, s: Accts, n: nat, i: nat)
    requires e.blockhash == ZERO_HASH && n < |tx.instructions| && i < |tx.keys| && LiveNonce(db, tx.keys[i])
    requires i < |s| && s[i] == LoadOne(db, tx, i)
    requires RunSome(e, tx, s, n).Ok? && RunSome(e, tx, s, n + 1).Ok?
    requires Fate(db, tx, RunSome(e, tx, s, n).value, i, false)
    ensures Fate(db, tx, RunSome(e, tx, s, n + 1).value, i, UsesUp(db, tx, n, i))
  {
    var ins := tx.instructions[n];
    StepOk(e, tx, s, n);
    NetRun(e, tx, s, n + 1, i);
    var u := RunSome(e, tx, s, n).value;
    if AdvancesPosition(tx, n, i) { AdvancedIns(e, tx, u, n, i); }
    else if tx.keys[ins.program] == PROGRAM_ID {
      LiveIns(e, u, ins.accounts, Parse(ins.data).value, i, db[tx.keys[i]].data[40..72]);
    }
  }

  /** A loaded copy of a live nonce is spent from the first instruction that uses it up,
      and stores its old hash before. */
  lemma {:induction false} PositionFate(e: Env, db: AccountMap, tx: Tx, s: Accts, n: nat, i: nat)
    requires e.blockhash == ZERO_HASH && n <= |tx.instructions| && i < |tx.keys| && LiveNonce(db, tx.keys[i])
    requires i < |s| && s[i] == LoadOne(db, tx, i) && RunSome(e, tx, s, n).Ok?
    ensures Fate(db, tx, RunSome(e, tx, s, n).value, i, UsedUp(db, tx, n, i))
  {
    if n > 0 {
      OkBefore(e, tx, s, n - 1, n);
      PositionFate(e, db, tx, s, n - 1, i);
      UsedUpStep(db, tx, n, i);
      FateStep(e, db, tx, s, n - 1, i, UsedUp(db, tx, n - 1, i));
    }
  }

  lemma FateStep(e: Env, db: AccountMap, tx: Tx, s: Accts, n: nat, i: nat, used: bool)
    requires e.blockhash == ZERO_HASH && n < |tx.instructions| && i < |tx.keys| && LiveNonce(db, tx.keys[i])
    requires i < |s| && s[i] == LoadOne(db, tx, i)
    requires RunSome(e, tx, s, n).Ok? && RunSome(e, tx, s, n + 1).Ok?
    requires Fate(db, tx, RunSome(e, tx, s, n).value, i, used)
    ensures Fate(db, tx, RunSome(e, tx, s, n + 1).value, i, used || UsesUp(db, tx, n, i))
  {
    if used { SpentFrom(e, tx, s, n, n + 1, i); } else { FateIns(e, db, tx, s, n, i); }
  }

  lemma UsedUpStep(db: AccountMap, tx: Tx, n: nat, i: nat)
    requires 0 < n && i < |tx.keys|
    ensures UsedUp(db, tx, n, i) <==> UsedUp(db, tx, n - 1, i) || UsesUp(db, tx, n - 1, i)
  {
    if UsedUp(db, tx, n - 1, i) {
      var m :| 0 <= m < n - 1 && UsesUp(db, tx, m, i);
      assert UsesUp(db, tx, m, i);
    }
  }

  /** The transaction succeeds and saves, as its last copy of k, one that it used up. */
  predicate UsedUpBy(sha: Sha, db: AccountMap, tx: Tx, k: Pubkey) {
    Execute(sha, db, tx).success && LastCopyUsedUp(db, tx, k)
  }

  ghost predicate SameHash(db: AccountMap, after: AccountMap, k: Pubkey)
    requires LiveNonce(db, k)
  {
    LiveNonce(after, k) && after[k].data[40..72] == db[k].data[40..72]
  }

  /** A transaction uses up a live nonce if and only if it succeeds and uses up the copy
      that it saves last; otherwise the nonce still stores the hash that it had. */
  lemma NonceFate(sha: Sha, db: AccountMap, tx: Tx, k: Pubkey)
    requires LiveNonce(db, k)
    ensures ZeroNonce(Execute(sha, db, tx).db, k) <==> UsedUpBy(sha, db, tx, k)
    ensures !UsedUpBy(sha, db, tx, k) ==> SameHash(db, Execute(sha, db, tx).db, k)
  {
    LiveIsNotZero(db, k);
    if Execute(sha, db, tx).success {
      SaveLast(db, tx, Final(sha, db, tx), |tx.keys|, k);
      var c := LastCopy(tx, |tx.keys|, k);
      if c.Some? { PositionFate(TxEnv(sha), db, tx, LoadAll(db, tx), |tx.instructions|, c.value); }
      if !LastCopyUsedUp(db, tx, k) { LiveIsNotZero(Execute(sha, db, tx).db, k); }
    }
  }

  /** Some transaction of the run uses k up. */
  ghost predicate UsedUpDuring(sha: Sha, db: AccountMap, txs: seq<Tx>, k: Pubkey) {
    exists a :: 0 <= a < |txs| && UsedUpBy(sha, DbRun(sha, db, txs[..a]), txs[a], k)
  }

  /** Over any run, a live nonce is used up exactly when some transaction uses it up, and
      until then stores the hash that it came with. */
  lemma {:induction false} NonceFateOverRuns(sha: Sha, db: AccountMap, txs: seq<Tx>, k: Pubkey)
    requires LiveNonce(db, k)
    ensures ZeroNonce(DbRun(sha, db, txs), k) <==> UsedUpDuring(sha, db, txs, k)
    ensures !UsedUpDuring(sha, db, txs, k) ==> SameHash(db, DbRun(sha, db, txs), k)
    decreases |txs|
  {
    LiveIsNotZero(db, k);
    if txs != [] {
      var (before, last) := (txs[..|txs| - 1], txs[|txs| - 1]);
      var m := DbRun(sha, db, before);
      NonceFateOverRuns(sha, db, before, k);
      UsedUpLast(sha, db, txs, k);
      if UsedUpDuring(sha, db, before, k) { ZeroNonceTx(sha, m, last, k); }
      else { NonceFate(sha, m, last, k); }
    }
  }

  lemma UsedUpLast(sha: Sha, db: AccountMap, txs: seq<Tx>, k: Pubkey)
    requires txs != []
    ensures var before := txs[..|txs| - 1];
      UsedUpDuring(sha, db, txs, k)
      <==> UsedUpDuring(sha, db, before, k) || UsedUpBy(sha, DbRun(sha, db, before), txs[|txs| - 1], k)
  {
    var before := txs[..|txs| - 1];
    assert forall a :: 0 <= a < |before| ==> before[..a] == txs[..a];
    if UsedUpDuring(sha, db, before, k) {
      var a :| 0 <= a < |before| && UsedUpBy(sha, DbRun(sha, db, before[..a]), before[a], k);
      assert UsedUpBy(sha, DbRun(sha, db, txs[..a]), txs[a], k);
    }
    if UsedUpDuring(sha, db, txs, k) {
      var a :| 0 <= a < |txs| && UsedUpBy(sha, DbRun(sha, db, txs[..a]), txs[a], k);
      assert a == |before| || UsedUpBy(sha, DbRun(sha, db, before[..a]), before[a], k);
    }
  }

  lemma {:induction false} DbRunSplit(sha: Sha, db: AccountMap, txs: seq<Tx>, more: seq<Tx>)
    ensures DbRun(sha, db, txs + more) == DbRun(sha, DbRun(sha, db, txs), more)
    decreases |more|
  {
    if more == [] {
      assert txs + more == txs;
    } else {
      var all := txs + more;
      assert all[..|all| - 1] == txs + more[..|more| - 1];
      DbRunSplit(sha, db, txs, more[..|more| - 1]);
    }
  }

  /** Over any run from any database, once a transaction has advanced the copy of k that
      it saves last, none ever advances k again. */
  lemma AtMostOneAdvance(sha: Sha, db: AccountMap, txs: seq<Tx>, a: nat, b: nat, m: nat, n: nat, i: nat, k: Pubkey)
    requires a < b < |txs| && LastCopy(txs[a], |txs[a].keys|, k) == Some(i)
    requires AdvancesPosition(txs[a], m, i) && AdvancesAt(txs[b], n, k)
    requires Execute(sha, DbRun(sha, db, txs[..a]), txs[a]).success
    ensures !Execute(sha, DbRun(sha, db, txs[..b]), txs[b]).success
  {
    var (tx, now) := (txs[a], DbRun(sha, db, txs[..a]));
    SpentAfter(TxEnv(sha), tx, LoadAll(now, tx), m, |tx.instructions|, i);
    SaveLast(now, tx, Final(sha, now, tx), |tx.keys|, k);
    var (done, between) := (txs[..a + 1], txs[a + 1..b]);
    assert done[..a] == txs[..a] && txs[..b] == done + between;
    DbRunSplit(sha, db, done, between);
    NonceNeverAdvances(sha, DbRun(sha, db, done), between, txs[b], n, k);
  }

  /** No transaction ever advances k again, whatever comes before it. */
  ghost predicate NeverAgain(sha: Sha, db: AccountMap, k: Pubkey) {
    forall txs, tx, n :: AdvancesAt(tx, n, k) ==> !Execute(sha, DbRun(sha, db, txs), tx).success
  }

  /** The authority, k and the System Program; one advance. */
  function AdvanceTx(authority: Pubkey, k: Pubkey): Tx {
    Tx([authority, k, PROGRAM_ID], Header(1, 0, 1), [Ins(2, [1, 1, 0], Encode(AdvanceNonce))], 1)
  }

  lemma LiveCanAdvance(sha: Sha, db: AccountMap, k: Pubkey)
    requires LiveNonce(db, k)
    ensures var tx := AdvanceTx(db[k].data[8..40], k); AdvancesAt(tx, 0, k) && Execute(sha, db, tx).success
  {
    var tx := AdvanceTx(db[k].data[8..40], k);
    ParseRoundTrip(AdvanceNonce, []);
    assert Encode(AdvanceNonce) + [] == Encode(AdvanceNonce);
    AdvanceExact(sha, db, tx, k);
  }

  /** A successful transaction is the last one after which k could advance, if and only
      if it uses up the copy of k that it saves last. */
  lemma LastUseExactly(sha: Sha, db: AccountMap, tx: Tx, k: Pubkey)
    requires LiveNonce(db, k) && Execute(sha, db, tx).success
    ensures NeverAgain(sha, Execute(sha, db, tx).db, k) <==> LastCopyUsedUp(db, tx, k)
  {
    var after := Execute(sha, db, tx).db;
    NonceFate(sha, db, tx, k);
    if LastCopyUsedUp(db, tx, k) {
      forall txs, next, n | AdvancesAt(next, n, k) ensures !Execute(sha, DbRun(sha, after, txs), next).success {
        NonceNeverAdvances(sha, after, txs, next, n, k);
      }
    } else {
      LiveCanAdvance(sha, after, k);
      assert DbRun(sha, after, []) == after;
    }
  }

  // ------------------------------------------------------------------- witnesses

  /** The authority, two copies of k and the System Program. */
  function TwoCopies(authority: Pubkey, k: Pubkey, instructions: seq<Ins>): Tx {
    Tx([authority, k, k, PROGRAM_ID], Header(1, 0, 1), instructions, 1)
  }

  /** Each copy is advanced. */
  function BothCopies(authority: Pubkey, k: Pubkey): Tx {
    TwoCopies(authority, k, [Ins(3, [1, 1, 0], Encode(AdvanceNonce)), Ins(3, [2, 2, 0], Encode(AdvanceNonce))])
  }

  /** Copies of one nonce advance separately. */
  lemma CopiesAdvanceTwice(sha: Sha, db: AccountMap, k: Pubkey)
    requires LiveNonce(db, k)
    ensures var tx := BothCopies(db[k].data[8..40], k);
      AdvancesAt(tx, 0, k) && AdvancesAt(tx, 1, k) && Execute(sha, db, tx).success
  {
    var tx := BothCopies(db[k].data[8..40], k);
    var (e, s) := (TxEnv(sha), LoadAll(db, tx));
    ParseRoundTrip(AdvanceNonce, []);
    assert Encode(AdvanceNonce) + [] == Encode(AdvanceNonce);
    assert s[0] == LoadOne(db, tx, 0) && s[1] == LoadOne(db, tx, 1) && s[2] == LoadOne(db, tx, 2);
    var t := ExecAdvance(e, s, [1, 1, 0]);
    assert RunIns(e, tx, s, tx.instructions[0]) == Ok(t.value);
    var u := ExecAdvance(e, t.value, [2, 2, 0]);
    assert RunIns(e, tx, t.value, tx.instructions[1]) == Ok(u.value);
    StepOk(e, tx, s, 0);
    StepOk(e, tx, s, 1);
  }

  /** The first copy is advanced; the second, which only stands where a sysvar would, is
      saved over it. */
  function FirstCopy(authority: Pubkey, k: Pubkey): Tx {
    TwoCopies(authority, k, [Ins(3, [1, 2, 0], Encode(AdvanceNonce))])
  }

  /** The transaction is this one, its data read. */
  predicate ReadsAsFirstCopy(db: AccountMap, tx: Tx, k: Pubkey)
    requires LiveNonce(db, k)
  {
    && tx.keys == [db[k].data[8..40], k, k, PROGRAM_ID] && tx.header == Header(1, 0, 1) && |tx.instructions| == 1
    && var ins := tx.instructions[0];
      ins.program == 3 && ins.accounts == [1, 2, 0] && Parse(ins.data) == Ok(AdvanceNonce)
  }

  lemma FirstCopyReads(db: AccountMap, k: Pubkey)
    requires LiveNonce(db, k)
    ensures ReadsAsFirstCopy(db, FirstCopy(db[k].data[8..40], k), k)
  {
    ParseRoundTrip(AdvanceNonce, []);
    assert Encode(AdvanceNonce) + [] == Encode(AdvanceNonce);
  }

  lemma FirstCopySaves(db: AccountMap, tx: Tx, k: Pubkey)
    requires LiveNonce(db, k) && ReadsAsFirstCopy(db, tx, k)
    ensures Saved(tx, 0) && Saved(tx, 1) && Saved(tx, 2) && !Saved(tx, 3)
  {
    OneInstructionSaves(tx, 0);
    OneInstructionSaves(tx, 1);
    OneInstructionSaves(tx, 2);
    OneInstructionSaves(tx, 3);
  }

  lemma FirstCopyRun(sha: Sha, db: AccountMap, tx: Tx, k: Pubkey)
    requires LiveNonce(db, k) && ReadsAsFirstCopy(db, tx, k)
    ensures AdvancesAt(tx, 0, k) && Execute(sha, db, tx).success
    ensures var t := Final(sha, db, tx); t[0] == LoadOne(db, tx, 0) && t[2] == LoadOne(db, tx, 2)
  {
    var (e, s) := (TxEnv(sha), LoadAll(db, tx));
    AdvanceExact(sha, db, tx, k);
    assert RunSome(e, tx, s, 0) == Ok(s);
    assert RunIns(e, tx, s, tx.instructions[0]) == Ok(ExecAdvance(e, s, tx.instructions[0].accounts).value);
  }

  lemma StoredAgain(db: AccountMap, tx: Tx, i: nat)
    requires i < |tx.keys| && (tx.keys[i] in db ==> !IsZero(db[tx.keys[i]]))
    ensures SameAt(MemSet(db, tx.keys[i], ToAccount(LoadOne(db, tx, i))), db, tx.keys[i])
  {
  }

  lemma FirstCopyAt(sha: Sha, db: AccountMap, tx: Tx, k: Pubkey, l: Pubkey)
    requires LiveNonce(db, k) && (db[k].data[8..40] in db ==> !IsZero(db[db[k].data[8..40]]))
    requires ReadsAsFirstCopy(db, tx, k) && Execute(sha, db, tx).success
    requires var t := Final(sha, db, tx); t[0] == LoadOne(db, tx, 0) && t[2] == LoadOne(db, tx, 2)
    ensures SameAt(Execute(sha, db, tx).db, db, l)
  {
    FirstCopySaves(db, tx, k);
    StoredAgain(db, tx, 0);
    StoredAgain(db, tx, 2);
    SaveLast(db, tx, Final(sha, db, tx), 4, l);
    var c := LastCopy(tx, 4, l);
    if l == k { LastCopyIsLast(tx, 4, k, 2); }
    assert c.Some? ==> c == Some(0) || c == Some(2);
  }

  /** Such a transaction succeeds and leaves the database as it was, */
  lemma FirstCopyChangesNothing(sha: Sha, db: AccountMap, tx: Tx, k: Pubkey)
    requires LiveNonce(db, k) && (db[k].data[8..40] in db ==> !IsZero(db[db[k].data[8..40]]))
    requires ReadsAsFirstCopy(db, tx, k)
    ensures AdvancesAt(tx, 0, k) && Execute(sha, db, tx).success && Execute(sha, db, tx).db == db
  {
    FirstCopyRun(sha, db, tx, k);
    forall l ensures SameAt(Execute(sha, db, tx).db, db, l) { FirstCopyAt(sha, db, tx, k, l); }
    SameMaps(Execute(sha, db, tx).db, db);
  }

  function Repeated(tx: Tx, n: nat): seq<Tx> {
    seq(n, _ => tx)
  }

  /** so it advances k any number of times: AtMostOneAdvance needs the advanced copy to
      be the last. */
  lemma {:induction false} AdvancesWithoutEnd(sha: Sha, db: AccountMap, k: Pubkey, n: nat)
    requires LiveNonce(db, k) && (db[k].data[8..40] in db ==> !IsZero(db[db[k].data[8..40]]))
    ensures var tx := FirstCopy(db[k].data[8..40], k);
      && AdvancesAt(tx, 0, k) && Execute(sha, DbRun(sha, db, Repeated(tx, n)), tx).success
      && DbRun(sha, db, Repeated(tx, n)) == db
  {
    var tx := FirstCopy(db[k].data[8..40], k);
    FirstCopyReads(db, k);
    FirstCopyChangesNothing(sha, db, tx, k);
    if n > 0 {
      AdvancesWithoutEnd(sha, db, k, n - 1);
      assert Repeated(tx, n)[..n - 1] == Repeated(tx, n - 1);
    }
  }
}
