/** What a transaction does to the lamports of the whole database. */
module TxLaws {
  import opened Bytes
  import opened ExecAccount
  import opened Accounts
  import opened System
  import opened SystemLaws
  import opened SystemWire
  import opened Store
  import opened Transactions

  // ------------------------------------------------- the gain, known before the call

  /** What the payment of one instruction gives position i: read off its bytes and its
      account indexes. */
  function Given(tx: Tx, ins: Ins, i: nat): int {
    if ins.program >= |tx.keys| || tx.keys[ins.program] != PROGRAM_ID || Parse(ins.data).Err? then 0
    else Paid(ins.accounts, Parse(ins.data).value, i)
  }

  /** What the first n instructions give position i. */
  function Net(tx: Tx, n: nat, i: nat): int
    requires n <= |tx.instructions|
  {
    if n == 0 then 0 else Net(tx, n - 1, i) + Given(tx, tx.instructions[n - 1], i)
  }

  /** What the first m positions add to the database, if the first n are considered for
      saving: of the copies of one key, only the last saved one adds anything. */
  function GainOf(tx: Tx, n: nat, m: nat): int
    requires m <= n <= |tx.keys|
  {
    if m == 0 then 0 else GainOf(tx, n, m - 1) + GainAt(tx, n, m - 1)
  }

  function GainAt(tx: Tx, n: nat, i: nat): int
    requires i < n <= |tx.keys|
  {
    if LastCopy(tx, n, tx.keys[i]) == Some(i) then Net(tx, |tx.instructions|, i) else 0
  }

  function Gain(tx: Tx): int {
    GainOf(tx, |tx.keys|, |tx.keys|)
  }

  lemma NetIns(e: Env, tx: Tx, s: Accts, ins: Ins, i: nat)
    requires RunIns(e, tx, s, ins).Ok? && i < |s|
    ensures |RunIns(e, tx, s, ins).value| == |s|
    ensures RunIns(e, tx, s, ins).value[i].lamports == s[i].lamports + Given(tx, ins, i)
  {
    if tx.keys[ins.program] == PROGRAM_ID { PaymentExact(e, s, ins.accounts, Parse(ins.data).value, i); }
  }

  lemma {:induction false} NetRun(e: Env, tx: Tx, s: Accts, n: nat, i: nat)
    requires n <= |tx.instructions| && RunSome(e, tx, s, n).Ok? && i < |s|
    ensures |RunSome(e, tx, s, n).value| == |s|
    ensures RunSome(e, tx, s, n).value[i].lamports == s[i].lamports + Net(tx, n, i)
  {
    if n > 0 {
      NetRun(e, tx, s, n - 1, i);
      NetIns(e, tx, RunSome(e, tx, s, n - 1).value, tx.instructions[n - 1], i);
    }
  }

  ghost function Final(sha: Sha, db: AccountMap, tx: Tx): (t: Accts)
    requires Execute(sha, db, tx).success
    ensures |t| == |tx.keys|
  {
    RunSize(TxEnv(sha), tx, LoadAll(db, tx), |tx.instructions|);
    RunAll(TxEnv(sha), tx, LoadAll(db, tx)).value
  }

  /** Every copy ends with what was stored and what its position was given. */
  ghost predicate Balanced(db: AccountMap, tx: Tx, t: Accts) {
    |t| == |tx.keys|
    && forall i :: 0 <= i < |t| ==> t[i].lamports == Balance(db, tx.keys[i]) + Net(tx, |tx.instructions|, i)
  }

  lemma FinalBalanced(sha: Sha, db: AccountMap, tx: Tx)
    requires Execute(sha, db, tx).success
    ensures Balanced(db, tx, Final(sha, db, tx))
  {
    var s := LoadAll(db, tx);
    forall i | 0 <= i < |s|
      ensures Final(sha, db, tx)[i].lamports == Balance(db, tx.keys[i]) + Net(tx, |tx.instructions|, i)
    {
      assert s[i] == LoadOne(db, tx, i);
      NetRun(TxEnv(sha), tx, s, |tx.instructions|, i);
    }
  }

  lemma GainAtStep(tx: Tx, n: nat, i: nat)
    requires i < n < |tx.keys|
    ensures GainAt(tx, n + 1, i) == GainAt(tx, n, i)
      - if Saved(tx, n) && LastCopy(tx, n, tx.keys[n]) == Some(i) then Net(tx, |tx.instructions|, i) else 0
  {
  }

  /** What saving position n adds to the gain: its own, instead of that of the copy it
      is saved over. */
  lemma {:induction false} GainStep(tx: Tx, n: nat, m: nat)
    requires m <= n < |tx.keys|
    ensures var c := LastCopy(tx, n, tx.keys[n]);
      GainOf(tx, n + 1, m) == GainOf(tx, n, m)
        - if Saved(tx, n) && c.Some? && c.value < m then Net(tx, |tx.instructions|, c.value) else 0
  {
    if m > 0 {
      GainStep(tx, n, m - 1);
      GainAtStep(tx, n, m - 1);
    }
  }

  /** The balance over which position n is saved: what was stored at first, and what the
      copy saved last was given. */
  lemma BalanceBefore(db: AccountMap, tx: Tx, t: Accts, n: nat)
    requires Balanced(db, tx, t) && n < |t|
    ensures var (k, c) := (tx.keys[n], LastCopy(tx, n, tx.keys[n]));
      Balance(Save(db, tx, t, n), k) == Balance(db, k) + if c.Some? then Net(tx, |tx.instructions|, c.value) else 0
  {
    SaveLast(db, tx, t, n, tx.keys[n]);
  }

  lemma SaveOne(db: AccountMap, tx: Tx, t: Accts, n: nat)
    requires Balanced(db, tx, t) && n < |t|
    ensures var c := LastCopy(tx, n, tx.keys[n]);
      Supply(Save(db, tx, t, n + 1)) == Supply(Save(db, tx, t, n))
        + if !Saved(tx, n) then 0
          else Net(tx, |tx.instructions|, n) - if c.Some? then Net(tx, |tx.instructions|, c.value) else 0
  {
    if Saved(tx, n) {
      BalanceBefore(db, tx, t, n);
      SupplySet(Save(db, tx, t, n), tx.keys[n], ToAccount(t[n]));
    }
  }

  lemma GainOne(tx: Tx, n: nat)
    requires n < |tx.keys|
    ensures var c := LastCopy(tx, n, tx.keys[n]);
      GainOf(tx, n + 1, n + 1) == GainOf(tx, n, n)
        + if !Saved(tx, n) then 0
          else Net(tx, |tx.instructions|, n) - if c.Some? then Net(tx, |tx.instructions|, c.value) else 0
  {
    GainStep(tx, n, n);
  }

  lemma {:induction false} SaveSupply(db: AccountMap, tx: Tx, t: Accts, n: nat)
    requires Balanced(db, tx, t) && n <= |t|
    ensures Supply(Save(db, tx, t, n)) == Supply(db) + GainOf(tx, n, n)
  {
    if n > 0 {
      SaveSupply(db, tx, t, n - 1);
      SaveOne(db, tx, t, n - 1);
      GainOne(tx, n - 1);
    }
  }

  /** Whatever the transaction, also one that names a key more than once: if it succeeds,
      the lamports of the whole database grow by its gain, which is known before the
      call. So they are kept if and only if it fails or its gain is zero. */
  lemma SupplyGain(sha: Sha, db: AccountMap, tx: Tx)
    ensures var o := Execute(sha, db, tx); Supply(o.db) == Supply(db) + if o.success then Gain(tx) else 0
    ensures Supply(Execute(sha, db, tx).db) == Supply(db) <==> !Execute(sha, db, tx).success || Gain(tx) == 0
  {
    if Execute(sha, db, tx).success {
      FinalBalanced(sha, db, tx);
      SaveSupply(db, tx, Final(sha, db, tx), |tx.keys|);
    }
  }

  // ------------------------------------------------------------- distinct keys

  predicate DistinctAccounts(tx: Tx) {
    forall i, j :: 0 <= i < j < |tx.keys| ==> tx.keys[i] != tx.keys[j]
  }

  /** Lamports gained by the first n accounts that are not saved. */
  function Unsaved(tx: Tx, s: Accts, t: Accts, n: nat): int
    requires |s| == |tx.keys| == |t| && n <= |s|
  {
    if n == 0 then 0 else
    Unsaved(tx, s, t, n - 1) + if Saved(tx, n - 1) then 0 else t[n - 1].lamports - s[n - 1].lamports
  }

  /** With distinct keys every saved position is the last copy of its key. */
  lemma {:induction false} DistinctGain(db: AccountMap, tx: Tx, t: Accts, m: nat)
    requires DistinctAccounts(tx) && Balanced(db, tx, t) && m <= |t|
    ensures var s := LoadAll(db, tx);
      GainOf(tx, |t|, m) == TotalOf(t, m) - TotalOf(s, m) - Unsaved(tx, s, t, m)
  {
    if m > 0 {
      DistinctGain(db, tx, t, m - 1);
      OnlyCopy(tx, m - 1);
    }
  }

  lemma OnlyCopy(tx: Tx, i: nat)
    requires DistinctAccounts(tx) && i < |tx.keys|
    ensures GainAt(tx, |tx.keys|, i) == if Saved(tx, i) then Net(tx, |tx.instructions|, i) else 0
  {
    var c := LastCopy(tx, |tx.keys|, tx.keys[i]);
    if Saved(tx, i) { LastCopyIsLast(tx, |tx.keys|, tx.keys[i], i); }
    assert c.Some? ==> c.value == i;
  }

  /** The lamports of the first n accounts. */
  function TotalOf(s: Accts, n: nat): nat
    requires n <= |s|
  {
    if n == 0 then 0 else TotalOf(s, n - 1) + s[n - 1].lamports
  }

  lemma {:induction false} TotalOfIsTotal(s: Accts, n: nat)
    requires n <= |s|
    ensures Total(s) == TotalOf(s, n) + Total(s[n..])
  {
    if n == 0 { assert s[0..] == s; }
    else {
      TotalOfIsTotal(s, n - 1);
      assert s[n - 1..][1..] == s[n..];
    }
  }

  /** With distinct keys the database loses exactly what the accounts that are not
      saved have gained in memory. */
  lemma SupplyChange(sha: Sha, db: AccountMap, tx: Tx)
    requires DistinctAccounts(tx) && Execute(sha, db, tx).success
    ensures Supply(Execute(sha, db, tx).db)
         == Supply(db) - Unsaved(tx, LoadAll(db, tx), Final(sha, db, tx), |tx.keys|)
  {
    var (s, t) := (LoadAll(db, tx), Final(sha, db, tx));
    RunSomeKeeps(TxEnv(sha), tx, s, |tx.instructions|);
    SupplyGain(sha, db, tx);
    FinalBalanced(sha, db, tx);
    DistinctGain(db, tx, t, |t|);
    TotalOfIsTotal(s, |s|);
    TotalOfIsTotal(t, |t|);
  }

  // ------------------------------------------------ a sum made before the call

  /** The payments that the System Program makes without testing that payer and payee
      are writable. */
  function UncheckedPayment(op: Instr): Option<(nat, nat, u64)> {
    if op.CreateAccount? || op.CreateWithSeed? || op.TransferWithSeed? then Payment(op) else None
  }

  /** What one instruction moves into accounts that are not writable, and so will not
      be saved, less what it moves out of them: read off its bytes, its accounts and
      the header. */
  function Flow(tx: Tx, ins: Ins): int {
    if ins.program >= |tx.keys| || tx.keys[ins.program] != PROGRAM_ID || Parse(ins.data).Err? then 0
    else PaymentFlow(tx, ins.accounts, UncheckedPayment(Parse(ins.data).value))
  }

  function PaymentFlow(tx: Tx, idx: seq<nat>, p: Option<(nat, nat, u64)>): int {
    if p.None? || p.value.0 >= |idx| || p.value.1 >= |idx| then 0 else
    var (payer, payee, n) := p.value;
    (if Writable(tx, idx[payee]) then 0 else n) - (if Writable(tx, idx[payer]) then 0 else n)
  }

  /** The same, over the first n instructions. */
  function NetFlow(tx: Tx, n: nat): int
    requires n <= |tx.instructions|
  {
    if n == 0 then 0 else NetFlow(tx, n - 1) + Flow(tx, tx.instructions[n - 1])
  }

  /** The lamports of those of the first n accounts that are not writable. */
  function ReadOnlyTotal(tx: Tx, s: Accts, n: nat): nat
    requires n <= |s|
  {
    if n == 0 then 0 else ReadOnlyTotal(tx, s, n - 1) + if Writable(tx, n - 1) then 0 else s[n - 1].lamports
  }

  /** The balances of t are those of s after n lamports have gone from i to j. */
  ghost predicate Moved(s: Accts, t: Accts, i: nat, j: nat, n: nat) {
    |t| == |s| && forall k :: 0 <= k < |s| ==>
      t[k].lamports == s[k].lamports + (if k == j then n else 0) - (if k == i then n else 0)
  }

  lemma {:induction false} ReadOnlyMoved(tx: Tx, s: Accts, t: Accts, m: nat, i: nat, j: nat, n: nat)
    requires Moved(s, t, i, j, n) && m <= |s|
    ensures ReadOnlyTotal(tx, t, m) == ReadOnlyTotal(tx, s, m)
      + (if j < m && !Writable(tx, j) then n else 0) - (if i < m && !Writable(tx, i) then n else 0)
  {
    if m > 0 { ReadOnlyMoved(tx, s, t, m - 1, i, j, n); }
  }

  /** Flags are those of the transaction. */
  ghost predicate Flagged(tx: Tx, s: Accts) {
    |s| == |tx.keys| && forall i :: 0 <= i < |s| ==> s[i].isWritable == Writable(tx, i)
  }

  lemma ReadOnlyStep(e: Env, tx: Tx, s: Accts, idx: seq<nat>, op: Instr)
    requires Flagged(tx, s) && InRange(idx, |s|) && Exec(e, s, idx, op).Ok?
    ensures |Exec(e, s, idx, op).value| == |s|
    ensures ReadOnlyTotal(tx, Exec(e, s, idx, op).value, |s|)
         == ReadOnlyTotal(tx, s, |s|) + PaymentFlow(tx, idx, UncheckedPayment(op))
  {
    Frame(e, s, idx, op);
    var t := Exec(e, s, idx, op).value;
    forall k | 0 <= k < |s| ensures t[k].lamports == s[k].lamports + Paid(idx, op, k) {
      PaymentExact(e, s, idx, op, k);
    }
    if Payment(op).Some? {
      PaymentNamed(e, s, idx, op);
      var (payer, payee, n) := Payment(op).value;
      ReadOnlyMoved(tx, s, t, |s|, idx[payer], idx[payee], n);
    } else {
      ReadOnlyMoved(tx, s, t, |s|, 0, 0, 0);
    }
  }

  /** A successful payment has named its payer and its payee, and has tested them if
      it is one that tests. */
  lemma PaymentNamed(e: Env, s: Accts, idx: seq<nat>, op: Instr)
    requires InRange(idx, |s|) && Exec(e, s, idx, op).Ok? && Payment(op).Some?
    ensures var p := Payment(op).value;
      && p.0 < |idx| && p.1 < |idx|
      && (UncheckedPayment(op).None? ==> s[idx[p.0]].isWritable && s[idx[p.1]].isWritable)
  {
  }

  lemma {:induction false} ReadOnlyRun(e: Env, tx: Tx, s: Accts, n: nat)
    requires Flagged(tx, s) && n <= |tx.instructions| && RunSome(e, tx, s, n).Ok?
    ensures Flagged(tx, RunSome(e, tx, s, n).value)
    ensures ReadOnlyTotal(tx, RunSome(e, tx, s, n).value, |s|) == ReadOnlyTotal(tx, s, |s|) + NetFlow(tx, n)
  {
    if n > 0 {
      ReadOnlyRun(e, tx, s, n - 1);
      ReadOnlyIns(e, tx, RunSome(e, tx, s, n - 1).value, tx.instructions[n - 1]);
    }
  }

  lemma ReadOnlyIns(e: Env, tx: Tx, s: Accts, ins: Ins)
    requires Flagged(tx, s) && RunIns(e, tx, s, ins).Ok?
    ensures Flagged(tx, RunIns(e, tx, s, ins).value)
    ensures ReadOnlyTotal(tx, RunIns(e, tx, s, ins).value, |s|) == ReadOnlyTotal(tx, s, |s|) + Flow(tx, ins)
  {
    RunInsKeeps(e, tx, s, ins);
    if tx.keys[ins.program] == PROGRAM_ID { ReadOnlyStep(e, tx, s, ins.accounts, Parse(ins.data).value); }
  }

  /** What is not saved has changed only in the accounts that are not writable. */
  lemma {:induction false} UnsavedIsReadOnly(tx: Tx, s: Accts, t: Accts, n: nat)
    requires |s| == |tx.keys| == |t| && n <= |s| && ChangesMarked(tx, s, t, |tx.instructions|)
    ensures Unsaved(tx, s, t, n) == ReadOnlyTotal(tx, t, n) - ReadOnlyTotal(tx, s, n)
  {
    if n > 0 { UnsavedIsReadOnly(tx, s, t, n - 1); }
  }

  /** With distinct keys, a successful transaction lowers the lamports of the whole
      database by exactly its net flow, whatever its instructions: so it keeps them
      if and only if the net flow, known before the call, is zero. */
  lemma SupplyExact(sha: Sha, db: AccountMap, tx: Tx)
    requires DistinctAccounts(tx)
    ensures var o := Execute(sha, db, tx);
      Supply(o.db) == Supply(db) - if o.success then NetFlow(tx, |tx.instructions|) else 0
    ensures Supply(Execute(sha, db, tx).db) == Supply(db)
       <==> !Execute(sha, db, tx).success || NetFlow(tx, |tx.instructions|) == 0
  {
    if Execute(sha, db, tx).success {
      var (s, t) := (LoadAll(db, tx), Final(sha, db, tx));
      SupplyChange(sha, db, tx);
      RunSomeKeeps(TxEnv(sha), tx, s, |tx.instructions|);
      ReadOnlyRun(TxEnv(sha), tx, s, |tx.instructions|);
      UnsavedIsReadOnly(tx, s, t, |t|);
    }
  }

  // -------------------------------------------------------------- simple checks

  /** Payer and payee of every unchecked payment are writable. */
  predicate PaysWritably(tx: Tx, ins: Ins) {
    ins.program < |tx.keys| && tx.keys[ins.program] == PROGRAM_ID && Parse(ins.data).Ok? ==>
      var p := UncheckedPayment(Parse(ins.data).value);
      p.Some? && p.value.0 < |ins.accounts| && p.value.1 < |ins.accounts| ==>
        Writable(tx, ins.accounts[p.value.0]) && Writable(tx, ins.accounts[p.value.1])
  }

  lemma {:induction false} WritableFlow(tx: Tx, n: nat)
    requires n <= |tx.instructions| && forall k :: 0 <= k < n ==> PaysWritably(tx, tx.instructions[k])
    ensures NetFlow(tx, n) == 0
  {
    if n > 0 { WritableFlow(tx, n - 1); }
  }

  /** With distinct keys and unchecked payments between writable accounts only, a
      transaction preserves the lamports of the whole database. */
  lemma SupplyConserved(sha: Sha, db: AccountMap, tx: Tx)
    requires DistinctAccounts(tx)
    requires forall k :: 0 <= k < |tx.instructions| ==> PaysWritably(tx, tx.instructions[k])
    ensures Supply(Execute(sha, db, tx).db) == Supply(db)
  {
    SupplyExact(sha, db, tx);
    WritableFlow(tx, |tx.instructions|);
  }

  /** The transaction is one unchecked payment of a positive amount. */
  predicate OnePayment(tx: Tx) {
    && |tx.instructions| == 1
    && var ins := tx.instructions[0];
      && ins.program < |tx.keys| && tx.keys[ins.program] == PROGRAM_ID && Parse(ins.data).Ok?
      && var p := UncheckedPayment(Parse(ins.data).value);
        p.Some? && p.value.2 > 0 && p.value.0 < |ins.accounts| && p.value.1 < |ins.accounts|
  }

  /** The payer and the payee. */
  function Ends(tx: Tx): (nat, nat)
    requires OnePayment(tx)
  {
    var ins := tx.instructions[0];
    var p := UncheckedPayment(Parse(ins.data).value).value;
    (ins.accounts[p.0], ins.accounts[p.1])
  }

  /** A single successful unchecked payment preserves the database total if and only if its two
      ends are both writable or both read-only. */
  lemma PaymentConservedExactly(sha: Sha, db: AccountMap, tx: Tx)
    requires DistinctAccounts(tx) && OnePayment(tx) && Execute(sha, db, tx).success
    ensures Supply(Execute(sha, db, tx).db) == Supply(db) <==> (Writable(tx, Ends(tx).0) <==> Writable(tx, Ends(tx).1))
  {
    SupplyExact(sha, db, tx);
    assert NetFlow(tx, 1) == NetFlow(tx, 0) + Flow(tx, tx.instructions[0]);
  }

  // ------------------------------------------------------------------- witnesses

  /** A transaction of one System Program instruction on the first two of three keys. */
  function TwoAccounts(k: Pubkey, l: Pubkey, header: Header, accounts: seq<byte>, op: Instr): Tx
    requires SeedFits(op)
  {
    Tx([k, l, PROGRAM_ID], header, [Ins(2, accounts, Encode(op))], 0)
  }

  lemma TwoAccountsRun(sha: Sha, db: AccountMap, k: Pubkey, l: Pubkey, header: Header, accounts: seq<byte>, op: Instr)
    requires SeedFits(op) && InRange(accounts, 2)
    ensures var tx := TwoAccounts(k, l, header, accounts, op);
      && Parse(tx.instructions[0].data) == Ok(op)
      && Execute(sha, db, tx).success == Exec(TxEnv(sha), LoadAll(db, tx), accounts, op).Ok?
  {
    var tx := TwoAccounts(k, l, header, accounts, op);
    ParseRoundTrip(op, []);
    assert Encode(op) + [] == Encode(op);
    assert RunSome(TxEnv(sha), tx, LoadAll(db, tx), 0) == Ok(LoadAll(db, tx));
    assert IndexesFit(tx.instructions[0], |LoadAll(db, tx)|);
  }

  /** A database in which one account has lamports. */
  function OneRich(k: Pubkey, n: u64): AccountMap {
    map[k := Account(n, [], PROGRAM_ID, false, 0)]
  }

  /** Creates an account at the second of two positions, paid for by the first; of the
      two keys, both signers, the second is read-only. */
  function Creation(k: Pubkey, l: Pubkey, owner: Pubkey, accounts: seq<byte>): Tx {
    TwoAccounts(k, l, Header(2, 1, 1), accounts, System.CreateAccount(2000, 0, owner))
  }

  /** Lamports are lost when the funder is saved and the new account is not; */
  lemma LamportsLost(sha: Sha, k: Pubkey, l: Pubkey, owner: Pubkey)
    requires k != l && k != PROGRAM_ID && l != PROGRAM_ID
    ensures var (db, tx) := (OneRich(k, 5000), Creation(k, l, owner, [0, 1]));
      DistinctAccounts(tx) && Execute(sha, db, tx).success && Supply(Execute(sha, db, tx).db) == Supply(db) - 2000
  {
    CreationChanges(sha, k, l, owner, [0, 1], true);
  }

  /** and made when it is the other way round. */
  lemma LamportsMade(sha: Sha, k: Pubkey, l: Pubkey, owner: Pubkey)
    requires k != l && k != PROGRAM_ID && l != PROGRAM_ID
    ensures var (db, tx) := (OneRich(l, 5000), Creation(k, l, owner, [1, 0]));
      DistinctAccounts(tx) && Execute(sha, db, tx).success && Supply(Execute(sha, db, tx).db) == Supply(db) + 2000
  {
    CreationChanges(sha, k, l, owner, [1, 0], false);
  }

  lemma CreationChanges(sha: Sha, k: Pubkey, l: Pubkey, owner: Pubkey, accounts: seq<byte>, lost: bool)
    requires k != l && k != PROGRAM_ID && l != PROGRAM_ID && accounts == if lost then [0, 1] else [1, 0]
    ensures var (db, tx) := (OneRich(if lost then k else l, 5000), Creation(k, l, owner, accounts));
      DistinctAccounts(tx) && Execute(sha, db, tx).success
      && Supply(Execute(sha, db, tx).db) == Supply(db) - if lost then 2000 else -2000
  {
    var (db, tx) := (OneRich(if lost then k else l, 5000), Creation(k, l, owner, accounts));
    CreationOk(sha, db, k, l, owner, accounts, lost);
    ThreeKeys(tx, k, l);
    CreationFlow(sha, db, tx, owner, accounts, lost);
  }

  lemma ThreeKeys(tx: Tx, k: Pubkey, l: Pubkey)
    requires tx.keys == [k, l, PROGRAM_ID] && k != l && k != PROGRAM_ID && l != PROGRAM_ID
    ensures DistinctAccounts(tx)
  {
  }

  lemma CreationFlow(sha: Sha, db: AccountMap, tx: Tx, owner: Pubkey, accounts: seq<byte>, lost: bool)
    requires |tx.keys| == 3 && tx.keys[2] == PROGRAM_ID && tx.header == Header(2, 1, 1) && DistinctAccounts(tx)
    requires |tx.instructions| == 1 && tx.instructions[0].program == 2 && tx.instructions[0].accounts == accounts
    requires Parse(tx.instructions[0].data) == Ok(System.CreateAccount(2000, 0, owner))
    requires accounts == (if lost then [0, 1] else [1, 0]) && Execute(sha, db, tx).success
    ensures Supply(Execute(sha, db, tx).db) == Supply(db) - if lost then 2000 else -2000
  {
    ReadOnlyFlow(tx, accounts, System.CreateAccount(2000, 0, owner), lost);
    SupplyExact(sha, db, tx);
  }

  lemma CreationOk(sha: Sha, db: AccountMap, k: Pubkey, l: Pubkey, owner: Pubkey, accounts: seq<byte>, lost: bool)
    requires k != l && k != PROGRAM_ID && l != PROGRAM_ID && accounts == if lost then [0, 1] else [1, 0]
    requires db == OneRich(if lost then k else l, 5000)
    ensures var tx := Creation(k, l, owner, accounts);
      && Execute(sha, db, tx).success
      && Parse(tx.instructions[0].data) == Ok(System.CreateAccount(2000, 0, owner))
  {
    var tx := Creation(k, l, owner, accounts);
    TwoAccountsRun(sha, db, k, l, Header(2, 1, 1), accounts, System.CreateAccount(2000, 0, owner));
    CreationReady(db, tx, accounts, lost);
    CreationSucceeds(TxEnv(sha), LoadAll(db, tx), accounts, owner);
  }

  lemma CreationReady(db: AccountMap, tx: Tx, accounts: seq<byte>, lost: bool)
    requires |tx.keys| == 3 && tx.keys[0] != tx.keys[1] && tx.header == Header(2, 1, 1)
    requires accounts == if lost then [0, 1] else [1, 0]
    requires db == OneRich(tx.keys[accounts[0]], 5000)
    ensures var s := LoadAll(db, tx);
      && s[accounts[0]].isSigner && s[accounts[1]].isSigner && s[accounts[0]].lamports == 5000 && !InUse(s[accounts[1]])
  {
    var s := LoadAll(db, tx);
    assert s[0] == LoadOne(db, tx, 0) && s[1] == LoadOne(db, tx, 1);
  }

  lemma CreationSucceeds(e: Env, s: Accts, idx: seq<nat>, owner: Pubkey)
    requires |idx| == 2 && InRange(idx, |s|) && e.rent == Rent
    requires s[idx[0]].isSigner && s[idx[1]].isSigner && s[idx[0]].lamports >= 2000 && !InUse(s[idx[1]])
    ensures Exec(e, s, idx, System.CreateAccount(2000, 0, owner)).Ok?
  {
    assert Rent(0) == 1780;
  }

  lemma ReadOnlyFlow(tx: Tx, accounts: seq<byte>, op: Instr, lost: bool)
    requires |tx.keys| == 3 && tx.keys[2] == PROGRAM_ID && tx.header == Header(2, 1, 1)
    requires |tx.instructions| == 1 && tx.instructions[0].program == 2 && tx.instructions[0].accounts == accounts
    requires Parse(tx.instructions[0].data) == Ok(op) && UncheckedPayment(op) == Some((0, 1, 2000))
    requires accounts == if lost then [0, 1] else [1, 0]
    ensures NetFlow(tx, 1) == if lost then 2000 else -2000
  {
    assert NetFlow(tx, 1) == NetFlow(tx, 0) + Flow(tx, tx.instructions[0]);
  }

  lemma OneInstructionSaves(tx: Tx, i: nat)
    requires |tx.instructions| == 1
    ensures Saved(tx, i) <==> MarkedBy(tx, tx.instructions[0], i)
  {
    if MarkedBy(tx, tx.instructions[0], i) { assert MarkedBy(tx, tx.instructions[0], i); }
  }

  /** A transfer between two copies of one account adds the amount to the database:
      the copy that has paid is saved first, and the one that was paid over it. */
  lemma RepeatedKeyCreatesLamports(sha: Sha, db: AccountMap, tx: Tx, k: Pubkey, n: u64)
    requires tx.keys == [k, k, PROGRAM_ID] && |tx.instructions| == 1
    requires tx.instructions[0].program == 2 && tx.instructions[0].accounts == [0, 1]
    requires Parse(tx.instructions[0].data) == Ok(System.Transfer(n))
    requires Execute(sha, db, tx).success
    ensures Supply(Execute(sha, db, tx).db) == Supply(db) + n
  {
    var (s, ins) := (LoadAll(db, tx), tx.instructions[0]);
    assert RunSome(TxEnv(sha), tx, s, 0) == Ok(s);
    assert ExecTransfer(s, ins.accounts, n).Ok?;
    assert s[0] == LoadOne(db, tx, 0) && s[1] == LoadOne(db, tx, 1);
    assert ins.accounts[0] == 0 && ins.accounts[1] == 1;
    TwoCopiesGain(tx, k, n);
    SupplyGain(sha, db, tx);
  }

  lemma TwoCopiesGain(tx: Tx, k: Pubkey, n: u64)
    requires tx.keys == [k, k, PROGRAM_ID] && |tx.instructions| == 1
    requires tx.instructions[0].program == 2 && tx.instructions[0].accounts == [0, 1]
    requires Parse(tx.instructions[0].data) == Ok(System.Transfer(n)) && Writable(tx, 0) && Writable(tx, 1)
    ensures Gain(tx) == n
  {
    OneInstructionSaves(tx, 0);
    OneInstructionSaves(tx, 1);
    OneInstructionSaves(tx, 2);
    assert LastCopy(tx, 3, k) == LastCopy(tx, 2, k) == Some(1);
    assert LastCopy(tx, 3, PROGRAM_ID) != Some(2);
    assert Net(tx, 1, 1) == Net(tx, 0, 1) + Given(tx, tx.instructions[0], 1);
    assert GainOf(tx, 3, 3) == GainOf(tx, 3, 2) == GainOf(tx, 3, 1) + n;
    assert GainOf(tx, 3, 1) == GainOf(tx, 3, 0) == 0;
  }

  /** Such a transaction exists. */
  lemma RepeatedKeyWitness(sha: Sha, k: Pubkey)
    requires k != PROGRAM_ID
    ensures var tx := TwoAccounts(k, k, Header(1, 0, 1), [0, 1], System.Transfer(5));
      var db := OneRich(k, 10);
      Execute(sha, db, tx).success && Supply(Execute(sha, db, tx).db) == Supply(db) + 5
  {
    var op := System.Transfer(5);
    var tx := TwoAccounts(k, k, Header(1, 0, 1), [0, 1], op);
    var db := OneRich(k, 10);
    TwoAccountsRun(sha, db, k, k, Header(1, 0, 1), [0, 1], op);
    RepeatedKeyCreatesLamports(sha, db, tx, k, 5);
  }
}
