/** What the header of a transaction says of its accounts, and what that means for a
    transaction as a whole: which positions sign, which can be written, which are saved. */
module TxFlags {
  import opened Bytes
  import opened ExecAccount
  import opened Accounts
  import opened System
  import opened SystemLaws
  import opened Store
  import opened Transactions
  import opened TxLaws

  /** The last of the signers, and the last of the others, are read-only. */
  predicate ReadOnlyAt(tx: Tx, i: nat) {
    var h := tx.header;
    || h.signers - h.readonlySigned <= i < h.signers
    || (h.signers <= i && |tx.keys| - h.readonlyUnsigned <= i)
  }

  /** Every account is loaded under its key with its flags, from the database or as an
      empty account of the System Program. */
  lemma LoadedExactly(db: AccountMap, tx: Tx, i: nat)
    requires i < |tx.keys|
    ensures var a := LoadAll(db, tx)[i];
      && a.key == tx.keys[i]
      && (a.isSigner <==> i < tx.header.signers)
      && (a.isWritable <==> !ReadOnlyAt(tx, i))
      && if a.key in db
         then db[a.key] == Account(a.lamports, a.data, a.owner, a.executable, a.rentEpoch)
         else a.lamports == 0 && a.data == [] && a.owner == ZeroBytes(32) && !a.executable && a.rentEpoch == 0
  {
    assert LoadAll(db, tx)[i] == LoadOne(db, tx, i);
  }

  ghost function Range(a: int, b: int): set<int>
    decreases b - a
  {
    if a >= b then {} else Range(a, b - 1) + {b - 1}
  }

  lemma {:induction false} RangeIs(a: int, b: int, i: int)
    requires a <= b
    ensures |Range(a, b)| == b - a && (i in Range(a, b) <==> a <= i < b)
    decreases b - a
  {
    if a < b {
      RangeIs(a, b - 1, i);
      RangeIs(a, b - 1, b - 1);
    }
  }

  /** The positions with these flags. */
  ghost function Positions(s: Accts, signer: bool, writable: bool): set<int> {
    set i | 0 <= i < |s| && s[i].isSigner == signer && s[i].isWritable == writable
  }

  /** A header that fits the keys says how many accounts there are of each kind. */
  lemma FlagCounts(db: AccountMap, tx: Tx)
    requires tx.header.readonlySigned <= tx.header.signers
    requires tx.header.signers + tx.header.readonlyUnsigned <= |tx.keys|
    ensures var (h, s) := (tx.header, LoadAll(db, tx));
      && |Positions(s, true, true)| == h.signers - h.readonlySigned
      && |Positions(s, true, false)| == h.readonlySigned
      && |Positions(s, false, true)| == |tx.keys| - h.signers - h.readonlyUnsigned
      && |Positions(s, false, false)| == h.readonlyUnsigned
  {
    var (h, s, n) := (tx.header, LoadAll(db, tx), |tx.keys|);
    forall i | 0 <= i < n
      ensures (s[i].isSigner <==> i < h.signers) && (s[i].isWritable <==> !ReadOnlyAt(tx, i))
    {
      LoadedExactly(db, tx, i);
    }
    var cut := h.signers - h.readonlySigned;
    Interval(Positions(s, true, true), 0, cut);
    Interval(Positions(s, true, false), cut, h.signers);
    Interval(Positions(s, false, true), h.signers, n - h.readonlyUnsigned);
    Interval(Positions(s, false, false), n - h.readonlyUnsigned, n);
  }

  lemma Interval(x: set<int>, a: int, b: int)
    requires a <= b && forall i :: i in x <==> a <= i < b
    ensures |x| == b - a
  {
    RangeIs(a, b, a);
    forall i ensures i in x <==> i in Range(a, b) { RangeIs(a, b, i); }
    assert x == Range(a, b);
  }

  /** An instruction for the System Program. */
  predicate ForSystem(tx: Tx, ins: Ins) {
    ins.program < |tx.keys| && tx.keys[ins.program] == ZeroBytes(32)
  }

  /** A transfer that names a read-only position as payer or payee. */
  predicate TransfersReadOnly(tx: Tx, ins: Ins, j: nat) {
    && ForSystem(tx, ins) && |ins.data| >= 4 && ins.data[..4] == [2, 0, 0, 0]
    && j < 2 && j < |ins.accounts| && ins.accounts[j] < |tx.keys| && ReadOnlyAt(tx, ins.accounts[j])
  }

  lemma TransferRefused(e: Env, tx: Tx, t: Accts, ins: Ins, j: nat)
    requires TransfersReadOnly(tx, ins, j) && |t| == |tx.keys| && !t[ins.accounts[j]].isWritable
    ensures RunIns(e, tx, t, ins).Err?
  {
    TransferTag(ins.data);
  }

  lemma StaysReadOnly(e: Env, db: AccountMap, tx: Tx, m: nat, i: nat)
    requires m <= |tx.instructions| && i < |tx.keys| && ReadOnlyAt(tx, i)
    requires RunSome(e, tx, LoadAll(db, tx), m).Ok?
    ensures var t := RunSome(e, tx, LoadAll(db, tx), m).value; |t| == |tx.keys| && !t[i].isWritable
  {
    RunSomeKeeps(e, tx, LoadAll(db, tx), m);
    LoadedExactly(db, tx, i);
    assert Kept(LoadAll(db, tx)[i], RunSome(e, tx, LoadAll(db, tx), m).value[i]);
  }

  /** A transaction with a transfer that names a read-only payer or payee fails, and
      changes nothing. */
  lemma ReadOnlyTransferFails(sha: Sha, db: AccountMap, tx: Tx, m: nat, j: nat)
    requires m < |tx.instructions| && TransfersReadOnly(tx, tx.instructions[m], j)
    ensures !Execute(sha, db, tx).success && Execute(sha, db, tx).db == db
  {
    var (e, s, ins) := (TxEnv(sha), LoadAll(db, tx), tx.instructions[m]);
    if RunSome(e, tx, s, m).Ok? {
      StaysReadOnly(e, db, tx, m, ins.accounts[j]);
      TransferRefused(e, tx, RunSome(e, tx, s, m).value, ins, j);
    }
    StepFails(e, tx, s, m);
  }

  lemma TransferTag(data: seq<byte>)
    requires |data| >= 4 && data[..4] == [2, 0, 0, 0]
    ensures Parse(data).Ok? ==> Parse(data).value.Transfer?
  {
    assert LE(2, 4) == [2, 0, 0, 0];
    LE4(2);
  }

  /** A position is marked for saving if some instruction for the System Program or the
      compute budget program names it, and it can be written. */
  predicate NamedBy(tx: Tx, ins: Ins, i: nat) {
    && i in ins.accounts && ins.program < |tx.keys|
    && (tx.keys[ins.program] == ZeroBytes(32) || tx.keys[ins.program] == COMPUTE_BUDGET)
  }

  predicate SavedAt(tx: Tx, i: nat) {
    !ReadOnlyAt(tx, i) && exists m :: 0 <= m < |tx.instructions| && NamedBy(tx, tx.instructions[m], i)
  }

  lemma SavedExactly(tx: Tx, i: nat)
    requires i < |tx.keys|
    ensures Saved(tx, i) <==> SavedAt(tx, i)
  {
    if Saved(tx, i) {
      var m :| 0 <= m < |tx.instructions| && MarkedBy(tx, tx.instructions[m], i);
      assert NamedBy(tx, tx.instructions[m], i);
    }
    if SavedAt(tx, i) {
      var m :| 0 <= m < |tx.instructions| && NamedBy(tx, tx.instructions[m], i);
      assert MarkedBy(tx, tx.instructions[m], i);
    }
  }

  ghost predicate SavedKey(tx: Tx, n: nat, k: Pubkey) {
    exists i :: 0 <= i < n && i < |tx.keys| && tx.keys[i] == k && SavedAt(tx, i)
  }

  lemma {:induction false} SavedKeysExactly(tx: Tx, n: nat, k: Pubkey)
    requires n <= |tx.keys|
    ensures k in SavedKeys(tx, n) <==> SavedKey(tx, n, k)
  {
    if n > 0 {
      SavedKeysExactly(tx, n - 1, k);
      SavedExactly(tx, n - 1);
      if SavedKey(tx, n - 1, k) {
        var i :| 0 <= i < n - 1 && i < |tx.keys| && tx.keys[i] == k && SavedAt(tx, i);
        assert i < n && tx.keys[i] == k && SavedAt(tx, i);
      }
    }
  }

  /** What a transaction reports: the keys of its marked positions if it succeeds, and its
      first key if it does not. */
  lemma ReportedExactly(sha: Sha, db: AccountMap, tx: Tx, k: Pubkey)
    ensures var o := Execute(sha, db, tx);
      k in o.modified <==> if o.success then SavedKey(tx, |tx.keys|, k) else |tx.keys| > 0 && tx.keys[0] == k
  {
    if Execute(sha, db, tx).success { SavedKeysExactly(tx, |tx.keys|, k); }
  }

  // ---------------------------------------------------------------- the whole of it

  /** An instruction does what the System Program makes of its bytes, if it is for that
      program; any other changes nothing. An index out of range is an error. */
  lemma InstructionExactly(e: Env, tx: Tx, s: Accts, ins: Ins)
    requires |s| == |tx.keys|
    ensures var r := RunIns(e, tx, s, ins);
      if ins.program >= |tx.keys| then r == Err(BadProgramIndex)
      else if exists k :: 0 <= k < |ins.accounts| && ins.accounts[k] >= |tx.keys| then r == Err(BadAccountIndex)
      else if tx.keys[ins.program] != ZeroBytes(32) then r == Ok(s)
      else var p := Process(e, s, ins.accounts, ins.data);
        r == if p.Ok? then Ok(p.value) else Err(Refused(p.error))
  {
  }

  /** Each state is what the next instruction makes of the one before. */
  ghost predicate InOrder(e: Env, tx: Tx, states: seq<Accts>) {
    |states| <= |tx.instructions| + 1
    && forall k :: 0 <= k < |states| - 1 ==> Follows(e, tx, states, k)
  }

  ghost predicate Follows(e: Env, tx: Tx, states: seq<Accts>, k: nat)
    requires k + 1 < |states| <= |tx.instructions| + 1
  {
    RunIns(e, tx, states[k], tx.instructions[k]) == Ok(states[k + 1])
  }

  /** The instructions run in their order, each on the accounts as the one before left
      them, up to the first that fails. */
  lemma {:induction false} RunsInOrder(e: Env, tx: Tx, s: Accts, n: nat) returns (states: seq<Accts>)
    requires n <= |tx.instructions|
    ensures 0 < |states| <= n + 1 && states[0] == s && InOrder(e, tx, states)
    ensures |states| == n + 1 ==> RunSome(e, tx, s, n) == Ok(states[n])
    ensures |states| <= n ==>
      RunIns(e, tx, states[|states| - 1], tx.instructions[|states| - 1]).Err? && RunSome(e, tx, s, n).Err?
    decreases n
  {
    states := [s];
    if n > 0 {
      states := RunsInOrder(e, tx, s, n - 1);
      if |states| == n {
        StepOk(e, tx, s, n - 1);
        var r := RunIns(e, tx, states[n - 1], tx.instructions[n - 1]);
        if r.Ok? {
          OneMoreState(e, tx, states, r.value);
          states := states + [r.value];
        }
      } else {
        ErrStays(e, tx, s, n - 1);
      }
    }
  }

  lemma OneMoreState(e: Env, tx: Tx, states: seq<Accts>, t: Accts)
    requires InOrder(e, tx, states) && 0 < |states| <= |tx.instructions|
    requires RunIns(e, tx, states[|states| - 1], tx.instructions[|states| - 1]) == Ok(t)
    ensures InOrder(e, tx, states + [t])
  {
    var more := states + [t];
    forall k | 0 <= k < |more| - 1 ensures Follows(e, tx, more, k) {
      if k < |states| - 1 { assert Follows(e, tx, states, k); }
    }
  }

  /** Position i is the last saved one of its key. */
  predicate LastSaved(tx: Tx, i: nat) {
    && i < |tx.keys| && SavedAt(tx, i)
    && forall j :: i < j < |tx.keys| && tx.keys[j] == tx.keys[i] ==> !SavedAt(tx, j)
  }

  /** The account is stored under the key; nothing is, if it has neither lamports nor data. */
  predicate StoredAs(after: AccountMap, k: Pubkey, a: Acct) {
    if a.lamports == 0 && a.data == [] then k !in after
    else k in after && after[k] == Account(a.lamports, a.data, a.owner, a.executable, a.rentEpoch)
  }

  /** What a successful transaction stores: under the key of every last saved position its
      account; elsewhere what was. */
  lemma StoredExactly(sha: Sha, db: AccountMap, tx: Tx, k: Pubkey)
    requires Execute(sha, db, tx).success
    ensures var (after, t) := (Execute(sha, db, tx).db, Final(sha, db, tx));
      && (forall i :: 0 <= i < |t| && tx.keys[i] == k && LastSaved(tx, i) ==>
            StoredAs(after, k, t[i]))
      && (!SavedKey(tx, |tx.keys|, k) ==> SameAt(after, db, k))
  {
    var t := Final(sha, db, tx);
    SaveLast(db, tx, t, |tx.keys|, k);
    var c := LastCopy(tx, |tx.keys|, k);
    forall i | 0 <= i < |t| && tx.keys[i] == k && LastSaved(tx, i) ensures c == Some(i) {
      SavedExactly(tx, i);
      LastCopyIsLast(tx, |tx.keys|, k, i);
      SavedExactly(tx, c.value);
    }
    if c.Some? { SavedExactly(tx, c.value); }
  }

  /** The surroundings that instructions see: two years of rent for 128 bytes more than the
      data, rounded down twice; the zero blockhash; a fee of 5000 lamports. */
  lemma EnvExactly(sha: Sha, n: u64)
    requires n <= 10485760
    ensures TxEnv(sha).rent(n) == (128 + n) * 6960 / 1000 * 2
    ensures TxEnv(sha).blockhash == ZeroBytes(32) && TxEnv(sha).fee == 5000 && TxEnv(sha).sha == sha
  {
  }
}
