/** What executing a transaction does to the account database
    (pkg/replayer/executor.go), as a function, with BPF execution disabled, which
    is its default. */
module Transactions {
  import opened Bytes
  import opened ExecAccount
  import opened Accounts
  import opened System
  import opened SystemLaws
  import opened Store

  datatype Header = Header(signers: byte, readonlySigned: byte, readonlyUnsigned: byte)
  datatype Ins = Ins(program: byte, accounts: seq<byte>, data: seq<byte>)
  datatype Tx = Tx(keys: seq<Pubkey>, header: Header, instructions: seq<Ins>, signatures: nat)

  const COMPUTE_BUDGET: Pubkey :=
    [3, 6, 70, 111, 229, 33, 23, 50, 255, 236, 173, 186, 114, 195, 155, 231,
     188, 140, 229, 187, 197, 247, 18, 107, 44, 67, 155, 58, 64, 0, 0, 0]

  function Rent(n: u64): u64 {
    ((128 + n) % 0x1_0000_0000_0000_0000 * 6960) % 0x1_0000_0000_0000_0000 / 1000 * 2
  }

  function TxEnv(sha: Sha): Env {
    Env(sha, Rent, ZERO_HASH, 5000)
  }

  // ------------------------------------------------------------------- loading

  predicate IsAccountWritable(i: int, h: Header, total: int) {
    if i < h.signers then i < h.signers - h.readonlySigned
    else i - h.signers < total - h.signers - h.readonlyUnsigned
  }

  predicate Writable(tx: Tx, i: nat) {
    IsAccountWritable(i, tx.header, |tx.keys|)
  }

  function LoadOne(db: AccountMap, tx: Tx, i: nat): Acct
    requires i < |tx.keys|
  {
    var k := tx.keys[i];
    var a := if k in db then db[k] else Account(0, [], ZERO_HASH, false, 0);
    Acct(k, a.owner, a.lamports, a.data, a.executable, a.rentEpoch, i < tx.header.signers, Writable(tx, i))
  }

  function LoadAll(db: AccountMap, tx: Tx): (s: Accts)
    ensures |s| == |tx.keys| && forall i :: 0 <= i < |s| ==> s[i] == LoadOne(db, tx, i)
  {
    seq(|tx.keys|, i requires 0 <= i < |tx.keys| => LoadOne(db, tx, i))
  }

  // ----------------------------------------------------------------- executing

  datatype TxError = BadProgramIndex | BadAccountIndex | Refused(error: System.Error)

  predicate IndexesFit(ins: Ins, n: nat) {
    forall i :: 0 <= i < |ins.accounts| ==> ins.accounts[i] < n
  }

  /** One instruction. The compute budget program only logs; so do, with execution
      disabled, the token program, the loaders and every BPF program. */
  function RunIns(e: Env, tx: Tx, s: Accts, ins: Ins): Result<Accts, TxError> {
    if ins.program >= |tx.keys| then Err(BadProgramIndex)
    else if !IndexesFit(ins, |s|) then Err(BadAccountIndex)
    else if tx.keys[ins.program] == PROGRAM_ID then
      var r := Process(e, s, ins.accounts, ins.data);
      if r.Ok? then Ok(r.value) else Err(Refused(r.error))
    else Ok(s)
  }

  /** The first n instructions, up to the first that fails. */
  function RunSome(e: Env, tx: Tx, s: Accts, n: nat): Result<Accts, TxError>
    requires n <= |tx.instructions|
    decreases n, 1
  {
    if n == 0 then Ok(s) else RunNext(e, tx, s, n)
  }

  function RunNext(e: Env, tx: Tx, s: Accts, n: nat): Result<Accts, TxError>
    requires 0 < n <= |tx.instructions|
    decreases n, 0
  {
    var r := RunSome(e, tx, s, n - 1);
    if r.Err? then r else RunIns(e, tx, r.value, tx.instructions[n - 1])
  }

  function RunAll(e: Env, tx: Tx, s: Accts): Result<Accts, TxError> {
    RunSome(e, tx, s, |tx.instructions|)
  }

  // -------------------------------------------------------------------- saving

  /** Whether a successful instruction marks the writable accounts it names. */
  predicate Marks(tx: Tx, ins: Ins) {
    ins.program < |tx.keys| && (tx.keys[ins.program] == PROGRAM_ID || tx.keys[ins.program] == COMPUTE_BUDGET)
  }

  predicate MarkedBy(tx: Tx, ins: Ins, i: nat) {
    Marks(tx, ins) && i in ins.accounts && Writable(tx, i)
  }

  predicate Marked(tx: Tx, n: nat, i: nat)
    requires n <= |tx.instructions|
  {
    exists k :: 0 <= k < n && MarkedBy(tx, tx.instructions[k], i)
  }

  predicate Saved(tx: Tx, i: nat) {
    Marked(tx, |tx.instructions|, i)
  }

  function ToAccount(a: Acct): Account {
    Account(a.lamports, a.data, a.owner, a.executable, a.rentEpoch)
  }

  /** The database after the first n accounts have been considered for saving. */
  function Save(db: AccountMap, tx: Tx, s: Accts, n: nat): AccountMap
    requires |s| == |tx.keys| && n <= |s|
  {
    if n == 0 then db else
    var m := Save(db, tx, s, n - 1);
    if Saved(tx, n - 1) then MemSet(m, tx.keys[n - 1], ToAccount(s[n - 1])) else m
  }

  function SavedKeys(tx: Tx, n: nat): seq<Pubkey>
    requires n <= |tx.keys|
  {
    if n == 0 then [] else
    SavedKeys(tx, n - 1) + if Saved(tx, n - 1) then [tx.keys[n - 1]] else []
  }

  /** The last of the first n positions that is a saved copy of k. */
  function LastCopy(tx: Tx, n: nat, k: Pubkey): (c: Option<nat>)
    requires n <= |tx.keys|
    ensures c.Some? ==> c.value < n && tx.keys[c.value] == k && Saved(tx, c.value)
  {
    if n == 0 then None
    else if tx.keys[n - 1] == k && Saved(tx, n - 1) then Some(n - 1)
    else LastCopy(tx, n - 1, k)
  }

  /** No later position is one. */
  lemma {:induction false} LastCopyIsLast(tx: Tx, n: nat, k: Pubkey, j: nat)
    requires j < n <= |tx.keys| && tx.keys[j] == k && Saved(tx, j)
    ensures LastCopy(tx, n, k).Some? && j <= LastCopy(tx, n, k).value
  {
    if j < n - 1 { LastCopyIsLast(tx, n - 1, k, j); }
  }

  datatype Outcome = Outcome(success: bool, db: AccountMap, modified: seq<Pubkey>)

  function FeePayer(tx: Tx): seq<Pubkey> {
    if tx.keys == [] then [] else [tx.keys[0]]
  }

  function Execute(sha: Sha, db: AccountMap, tx: Tx): Outcome {
    var r := RunAll(TxEnv(sha), tx, LoadAll(db, tx));
    if r.Err? then Outcome(false, db, FeePayer(tx)) else
    RunSize(TxEnv(sha), tx, LoadAll(db, tx), |tx.instructions|);
    Outcome(true, Save(db, tx, r.value, |tx.keys|), SavedKeys(tx, |tx.keys|))
  }

  // ------------------------------------------------- instructions keep the frame

  lemma RunInsKeeps(e: Env, tx: Tx, s: Accts, ins: Ins)
    requires RunIns(e, tx, s, ins).Ok?
    ensures AllKept(s, RunIns(e, tx, s, ins).value)
    ensures Total(RunIns(e, tx, s, ins).value) == Total(s)
    ensures forall i :: 0 <= i < |s| && RunIns(e, tx, s, ins).value[i] != s[i] ==> i in ins.accounts && Marks(tx, ins)
  {
    if tx.keys[ins.program] == PROGRAM_ID {
      AfterKeeps(s, Call(e, ins.accounts, ins.data));
      AfterOthers(s, Call(e, ins.accounts, ins.data), ins.accounts, RunIns(e, tx, s, ins).value);
    }
  }

  lemma AfterOthers(s: Accts, c: Call, idx: seq<byte>, t: Accts)
    requires InRange(c.idx, |s|) && c.idx == idx && t == After(s, c) && OthersSame(s, t, c.idx)
    ensures forall i :: 0 <= i < |s| && t[i] != s[i] ==> i in idx
  {
  }

  lemma {:induction false} RunSize(e: Env, tx: Tx, s: Accts, n: nat)
    requires n <= |tx.instructions| && RunSome(e, tx, s, n).Ok?
    ensures |RunSome(e, tx, s, n).value| == |s|
  {
    if n > 0 {
      RunSize(e, tx, s, n - 1);
      RunInsKeeps(e, tx, RunSome(e, tx, s, n - 1).value, tx.instructions[n - 1]);
    }
  }

  /** A changed account that is writable has been marked for saving. */
  ghost predicate ChangesMarked(tx: Tx, s: Accts, t: Accts, n: nat)
    requires n <= |tx.instructions| && |s| == |t|
  {
    forall i :: 0 <= i < |s| && t[i] != s[i] && Writable(tx, i) ==> Marked(tx, n, i)
  }

  lemma {:induction false} RunSomeKeeps(e: Env, tx: Tx, s: Accts, n: nat)
    requires n <= |tx.instructions| && RunSome(e, tx, s, n).Ok?
    ensures var t := RunSome(e, tx, s, n).value;
      AllKept(s, t) && Total(t) == Total(s) && ChangesMarked(tx, s, t, n)
  {
    if n > 0 {
      RunSomeKeeps(e, tx, s, n - 1);
      var u := RunSome(e, tx, s, n - 1).value;
      var ins := tx.instructions[n - 1];
      RunInsKeeps(e, tx, u, ins);
      var t := RunIns(e, tx, u, ins).value;
      forall i | 0 <= i < |s| && t[i] != s[i] && Writable(tx, i) ensures Marked(tx, n, i) {
        if t[i] != u[i] {
          assert MarkedBy(tx, tx.instructions[n - 1], i);
        } else {
          assert Marked(tx, n - 1, i);
        }
      }
    }
  }

  lemma StepOk(e: Env, tx: Tx, s: Accts, m: nat)
    requires m < |tx.instructions| && RunSome(e, tx, s, m).Ok?
    ensures RunSome(e, tx, s, m + 1) == RunIns(e, tx, RunSome(e, tx, s, m).value, tx.instructions[m])
  {
  }

  lemma ErrStays(e: Env, tx: Tx, s: Accts, m: nat)
    requires m < |tx.instructions| && RunSome(e, tx, s, m).Err?
    ensures RunSome(e, tx, s, m + 1).Err?
  {
  }

  lemma {:induction false} FailedStays(e: Env, tx: Tx, s: Accts, m: nat, n: nat)
    requires m <= n <= |tx.instructions| && RunSome(e, tx, s, m).Err?
    ensures RunSome(e, tx, s, n).Err?
    decreases n - m
  {
    if m < n {
      ErrStays(e, tx, s, m);
      FailedStays(e, tx, s, m + 1, n);
    }
  }

  lemma StepFails(e: Env, tx: Tx, s: Accts, m: nat)
    requires m < |tx.instructions|
    requires RunSome(e, tx, s, m).Ok? ==> RunIns(e, tx, RunSome(e, tx, s, m).value, tx.instructions[m]).Err?
    ensures RunAll(e, tx, s).Err?
  {
    FailedStays(e, tx, s, m + 1, |tx.instructions|);
  }

  // --------------------------------------------------------------- atomic saving

  lemma {:induction false} SaveFrame(db: AccountMap, tx: Tx, s: Accts, n: nat, k: Pubkey)
    requires |s| == |tx.keys| && n <= |s| && k !in SavedKeys(tx, n)
    ensures k in Save(db, tx, s, n) <==> k in db
    ensures k in db ==> Save(db, tx, s, n)[k] == db[k]
  {
    if n > 0 { SaveFrame(db, tx, s, n - 1, k); }
  }

  ghost predicate SameAt(m: AccountMap, n: AccountMap, k: Pubkey) {
    (k in m <==> k in n) && (k in m ==> m[k] == n[k])
  }

  lemma SameMaps(m: AccountMap, n: AccountMap)
    requires forall k :: SameAt(m, n, k)
    ensures m == n
  {
    forall k | k in m ensures k in n && m[k] == n[k] { assert SameAt(m, n, k); }
    forall k | k in n ensures k in m { assert SameAt(m, n, k); }
  }

  /** Under k the database ends with the last saved copy of it, whatever the others hold. */
  lemma {:induction false} SaveLast(db: AccountMap, tx: Tx, t: Accts, n: nat, k: Pubkey)
    requires |t| == |tx.keys| && n <= |t|
    ensures var c := LastCopy(tx, n, k);
      SameAt(Save(db, tx, t, n), if c.Some? then MemSet(db, k, ToAccount(t[c.value])) else db, k)
  {
    if n > 0 { SaveLast(db, tx, t, n - 1, k); }
  }

  /** A failed transaction leaves the database as it was; a successful one changes
      it only at the keys it reports, all of them keys of writable accounts. */
  lemma Atomicity(sha: Sha, db: AccountMap, tx: Tx, k: Pubkey)
    ensures var o := Execute(sha, db, tx);
      && (!o.success ==> o.db == db)
      && (k !in o.modified ==> SameAt(o.db, db, k))
      && (o.success && k in o.modified ==> exists i :: 0 <= i < |tx.keys| && tx.keys[i] == k && Writable(tx, i))
  {
    var r := RunAll(TxEnv(sha), tx, LoadAll(db, tx));
    if r.Ok? {
      RunSize(TxEnv(sha), tx, LoadAll(db, tx), |tx.instructions|);
      if k !in SavedKeys(tx, |tx.keys|) { SaveFrame(db, tx, r.value, |tx.keys|, k); }
      else { SavedKeysWritable(tx, |tx.keys|, k); }
    }
  }

  lemma {:induction false} SavedKeysWritable(tx: Tx, n: nat, k: Pubkey)
    requires n <= |tx.keys| && k in SavedKeys(tx, n)
    ensures exists i :: 0 <= i < n && tx.keys[i] == k && Writable(tx, i)
  {
    if k in SavedKeys(tx, n - 1) { SavedKeysWritable(tx, n - 1, k); }
    else { assert Writable(tx, n - 1) && tx.keys[n - 1] == k; }
  }

  // ---------------------------------------------------------- the database total

  function Balance(m: AccountMap, k: Pubkey): nat {
    if k in m then m[k].lamports else 0
  }

  /** The lamports of a whole database. */
  ghost function Supply(m: AccountMap): nat {
    if m == map[] then 0 else
    var k :| k in m;
    m[k].lamports + Supply(m - {k})
  }

  lemma {:induction false} SupplyWithout(m: AccountMap, k: Pubkey)
    ensures Supply(m) == Balance(m, k) + Supply(m - {k})
    decreases |m|
  {
    if k !in m {
      assert m - {k} == m;
    } else {
      var l :| l in m && Supply(m) == m[l].lamports + Supply(m - {l});
      if l != k {
        SupplyWithout(m - {l}, k);
        SupplyWithout(m - {k}, l);
        assert m - {l} - {k} == m - {k} - {l};
      }
    }
  }

  lemma SupplySet(m: AccountMap, k: Pubkey, a: Account)
    ensures Supply(MemSet(m, k, a)) == Supply(m) - Balance(m, k) + a.lamports
  {
    SupplyWithout(m, k);
    SupplyWithout(m[k := a], k);
    assert m[k := a] - {k} == m - {k};
  }
}
