/** The transaction executor as it runs (pkg/replayer/executor.go): accounts are
    copied out of the database into fresh objects, instructions update those objects
    in place, and the marked ones are written back once every instruction has
    succeeded. */
module TxExecutor {
  import opened Bytes
  import opened ExecAccount
  import opened Accounts
  import System
  import opened SystemLaws
  import opened SystemProgram
  import opened Store
  import opened Transactions

  class LoadedAccount {
    const key: Pubkey
    const account: AccountInfo
    var modified: bool

    constructor (key: Pubkey, account: AccountInfo)
      ensures this.key == key && this.account == account && !modified
    {
      this.key, this.account, modified := key, account, false;
    }
  }

  ghost function Objects(infos: seq<LoadedAccount>): (objs: seq<AccountInfo>)
    ensures |objs| == |infos| && forall i :: 0 <= i < |infos| ==> objs[i] == infos[i].account
  {
    seq(|infos|, i requires 0 <= i < |infos| => infos[i].account)
  }

  ghost predicate DistinctInfos(infos: seq<LoadedAccount>) {
    forall i, j :: 0 <= i < j < |infos| ==> infos[i] != infos[j]
  }

  /** The modified flags after the first n instructions. */
  ghost predicate FlagsAre(infos: seq<LoadedAccount>, tx: Tx, n: nat)
    requires n <= |tx.instructions|
    reads infos`modified
  {
    forall i :: 0 <= i < |infos| ==> infos[i].modified == Marked(tx, n, i)
  }

  /** The first accounts of the transaction, loaded. */
  ghost predicate LoadedSoFar(db: AccountMap, tx: Tx, infos: seq<LoadedAccount>)
    reads infos, Objects(infos)
  {
    && |infos| <= |tx.keys| && DistinctInfos(infos) && Distinct(Objects(infos))
    && forall k :: 0 <= k < |infos| ==> IsLoaded(db, tx, infos, k)
  }

  ghost predicate IsLoaded(db: AccountMap, tx: Tx, infos: seq<LoadedAccount>, k: nat)
    requires k < |infos| <= |tx.keys|
    reads infos, Objects(infos)
  {
    infos[k].key == tx.keys[k] && !infos[k].modified && Objects(infos)[k].View() == LoadOne(db, tx, k)
  }

  lemma LoadedAll(db: AccountMap, tx: Tx, infos: seq<LoadedAccount>)
    requires LoadedSoFar(db, tx, infos) && |infos| == |tx.keys|
    ensures Working(tx, infos, LoadAll(db, tx)) && FlagsAre(infos, tx, 0)
  {
    forall k | 0 <= k < |infos|
      ensures infos[k].key == tx.keys[k] && !infos[k].modified && Objects(infos)[k].View() == LoadAll(db, tx)[k]
    {
      assert IsLoaded(db, tx, infos, k);
    }
  }

  lemma LoadedMore(db: AccountMap, tx: Tx, infos: seq<LoadedAccount>, info: LoadedAccount)
    requires LoadedSoFar(db, tx, infos) && |infos| < |tx.keys| && info !in infos && info.account !in Objects(infos)
    requires info.key == tx.keys[|infos|] && !info.modified && info.account.View() == LoadOne(db, tx, |infos|)
    ensures LoadedSoFar(db, tx, infos + [info])
  {
    var more := infos + [info];
    assert Objects(more) == Objects(infos) + [info.account];
    forall k | 0 <= k < |more| ensures IsLoaded(db, tx, more, k) {
      if k < |infos| { assert IsLoaded(db, tx, infos, k); }
    }
  }

  /** The executor's working accounts hold the values vals. */
  ghost predicate Working(tx: Tx, infos: seq<LoadedAccount>, vals: System.Accts)
    reads Objects(infos)
  {
    && |infos| == |tx.keys| == |vals|
    && DistinctInfos(infos) && Distinct(Objects(infos)) && Shows(Objects(infos), vals)
    && forall i :: 0 <= i < |infos| ==> infos[i].key == tx.keys[i] && vals[i].isWritable == Writable(tx, i)
  }

  /** What Execute does, the closed database included: then loading any account
      fails, and the fee payer is reported. */
  function Executed(sha: Sha, closed: bool, db: AccountMap, tx: Tx): Outcome {
    if closed && |tx.keys| > 0 then Outcome(false, db, FeePayer(tx)) else Execute(sha, db, tx)
  }

  class TransactionExecutor {
    const accounts: MemoryDB
    const sha: Sha

    constructor (accounts: MemoryDB, sha: Sha)
      ensures this.accounts == accounts && this.sha == sha
    {
      this.accounts, this.sha := accounts, sha;
    }

    method LoadAccount(tx: Tx, i: nat) returns (info: Option<LoadedAccount>)
      requires i < |tx.keys|
      ensures info.None? <==> accounts.closed
      ensures info.Some? ==> fresh(info.value) && fresh(info.value.account)
      ensures info.Some? ==> !info.value.modified && info.value.key == tx.keys[i]
      ensures info.Some? ==> info.value.account.View() == LoadOne(accounts.accounts, tx, i)
    {
      var r := accounts.GetAccount(tx.keys[i]);
      var data;
      if r.Err? {
        if r.error != NotFound { return None; }
        data := Account(0, [], ZERO_HASH, false, 0);
      } else {
        data := r.value;
      }
      var account := new AccountInfo(Acct(tx.keys[i], data.owner, data.lamports, data.data, data.executable,
        data.rentEpoch, i < tx.header.signers, IsAccountWritable(i, tx.header, |tx.keys|)));
      var loaded := new LoadedAccount(tx.keys[i], account);
      info := Some(loaded);
    }

    method LoadAccounts(tx: Tx) returns (r: Option<seq<LoadedAccount>>)
      ensures r.None? <==> accounts.closed && |tx.keys| > 0
      ensures r.Some? ==> fresh(r.value) && fresh(Objects(r.value))
      ensures r.Some? ==> Working(tx, r.value, LoadAll(accounts.accounts, tx)) && FlagsAre(r.value, tx, 0)
    {
      var infos: seq<LoadedAccount> := [];
      var i := 0;
      while i < |tx.keys|
        invariant i == |infos| <= |tx.keys|
        invariant i > 0 ==> !accounts.closed
        invariant fresh(infos) && fresh(Objects(infos)) && LoadedSoFar(accounts.accounts, tx, infos)
      {
        var info := LoadAccount(tx, i);
        if info.None? { return None; }
        LoadedMore(accounts.accounts, tx, infos, info.value);
        infos := infos + [info.value];
        i := i + 1;
      }
      LoadedAll(accounts.accounts, tx, infos);
      return Some(infos);
    }

    /** Marks the writable accounts an instruction names. */
    method MarkModified(tx: Tx, infos: seq<LoadedAccount>, n: nat, ghost vals: System.Accts)
      requires n < |tx.instructions| && Working(tx, infos, vals) && FlagsAre(infos, tx, n)
      requires IndexesFit(tx.instructions[n], |infos|) && Marks(tx, tx.instructions[n])
      modifies infos`modified
      ensures FlagsAre(infos, tx, n + 1)
    {
      var named := tx.instructions[n].accounts;
      var i := 0;
      while i < |named|
        invariant 0 <= i <= |named|
        invariant forall k :: 0 <= k < |infos| ==>
          infos[k].modified == (Marked(tx, n, k) || (k in named[..i] && Writable(tx, k)))
      {
        assert infos[named[i]].account.View() == vals[named[i]];
        if infos[named[i]].account.isWritable {
          infos[named[i]].modified := true;
        }
        i := i + 1;
      }
      forall k | 0 <= k < |infos| ensures infos[k].modified == Marked(tx, n + 1, k) {
        MarkedNext(tx, n, k);
        assert named[..|named|] == named;
      }
    }

    /** The objects an instruction names, in its order. */
    method PickAccounts(ins: Ins, infos: seq<LoadedAccount>) returns (named: Option<seq<AccountInfo>>)
      ensures named.None? <==> !IndexesFit(ins, |infos|)
      ensures named.Some? ==> Picks(named.value, Objects(infos), ins.accounts)
    {
      var picked: seq<AccountInfo> := [];
      var i := 0;
      while i < |ins.accounts|
        invariant i == |picked| <= |ins.accounts|
        invariant forall k :: 0 <= k < i ==> ins.accounts[k] < |infos| && picked[k] == infos[ins.accounts[k]].account
      {
        if ins.accounts[i] >= |infos| { return None; }
        picked := picked + [infos[ins.accounts[i]].account];
        i := i + 1;
      }
      return Some(picked);
    }

    method ExecuteSystemProgram(tx: Tx, infos: seq<LoadedAccount>, named: seq<AccountInfo>, data: seq<byte>,
        ghost idx: seq<nat>, ghost vals: System.Accts) returns (err: Option<System.Error>)
      requires Working(tx, infos, vals) && Picks(named, Objects(infos), idx)
      modifies Objects(infos)
      ensures var r := System.Process(TxEnv(sha), vals, idx, data);
        err == ErrorOf(r) && Working(tx, infos, StateOf(r, vals))
    {
      var ctx := new InvokeContext(named, TxEnv(sha));
      err := ctx.Process(data, Objects(infos), idx, vals);
      AfterKeeps(vals, Call(TxEnv(sha), idx, data));
      assert forall k :: 0 <= k < |vals| ==> Kept(vals[k], After(vals, Call(TxEnv(sha), idx, data))[k]);
    }

    method ExecuteSystem(tx: Tx, infos: seq<LoadedAccount>, named: seq<AccountInfo>, n: nat, ghost vals: System.Accts)
      returns (err: Option<TxError>)
      requires n < |tx.instructions| && Working(tx, infos, vals) && FlagsAre(infos, tx, n)
      requires var ins := tx.instructions[n];
        && ins.program < |tx.keys| && tx.keys[ins.program] == System.PROGRAM_ID
        && IndexesFit(ins, |infos|) && Picks(named, Objects(infos), ins.accounts)
      modifies infos`modified, Objects(infos)
      ensures var r := RunIns(TxEnv(sha), tx, vals, tx.instructions[n]);
        if r.Ok? then err == None && Working(tx, infos, r.value) && FlagsAre(infos, tx, n + 1) else err == Some(r.error)
    {
      var ins := tx.instructions[n];
      var e := ExecuteSystemProgram(tx, infos, named, ins.data, ins.accounts, vals);
      SystemIns(TxEnv(sha), tx, vals, ins);
      if e.Some? { return Some(Refused(e.value)); }
      MarkModified(tx, infos, n, System.Process(TxEnv(sha), vals, ins.accounts, ins.data).value);
      return None;
    }

    /** Runs instruction n on the working accounts. */
    method ExecuteInstruction(tx: Tx, infos: seq<LoadedAccount>, n: nat, ghost vals: System.Accts)
      returns (err: Option<TxError>)
      requires n < |tx.instructions| && Working(tx, infos, vals) && FlagsAre(infos, tx, n)
      modifies infos`modified, Objects(infos)
      ensures var r := RunIns(TxEnv(sha), tx, vals, tx.instructions[n]);
        if r.Ok? then err == None && Working(tx, infos, r.value) && FlagsAre(infos, tx, n + 1) else err == Some(r.error)
    {
      var ins := tx.instructions[n];
      if ins.program >= |tx.keys| { return Some(BadProgramIndex); }
      var programID := tx.keys[ins.program];
      var named := PickAccounts(ins, infos);
      if named.None? { return Some(BadAccountIndex); }
      if programID == System.PROGRAM_ID {
        err := ExecuteSystem(tx, infos, named.value, n, vals);
        return err;
      }
      if programID == COMPUTE_BUDGET {
        MarkModified(tx, infos, n, vals);
        return None;
      }
      // the token program, the loaders and BPF programs: logged, not executed
      NothingMarked(tx, n);
      return None;
    }

    /** Runs instruction n after the ones before it have led to vals. */
    method ExecuteNext(tx: Tx, infos: seq<LoadedAccount>, n: nat, ghost s: System.Accts, ghost vals: System.Accts)
      returns (ok: bool, ghost next: System.Accts)
      requires n < |tx.instructions| && Working(tx, infos, vals) && FlagsAre(infos, tx, n)
      requires RunSome(TxEnv(sha), tx, s, n) == Ok(vals)
      modifies infos`modified, Objects(infos)
      ensures ok ==> RunSome(TxEnv(sha), tx, s, n + 1) == Ok(next)
      ensures !ok ==> RunAll(TxEnv(sha), tx, s).Err?
      ensures ok ==> Working(tx, infos, next) && FlagsAre(infos, tx, n + 1)
    {
      var err := ExecuteInstruction(tx, infos, n, vals);
      StepTo(TxEnv(sha), tx, s, n, vals);
      ghost var r := RunIns(TxEnv(sha), tx, vals, tx.instructions[n]);
      if err.Some? {
        FailedStays(TxEnv(sha), tx, s, n + 1, |tx.instructions|);
        return false, vals;
      }
      return true, r.value;
    }

    /** Runs the instructions up to the first that fails. */
    method ExecuteAll(tx: Tx, infos: seq<LoadedAccount>, ghost s: System.Accts)
        returns (ok: bool, ghost vals: System.Accts)
      requires Working(tx, infos, s) && FlagsAre(infos, tx, 0)
      modifies infos`modified, Objects(infos)
      ensures if ok then RunAll(TxEnv(sha), tx, s) == Ok(vals) else RunAll(TxEnv(sha), tx, s).Err?
      ensures ok ==> Working(tx, infos, vals) && FlagsAre(infos, tx, |tx.instructions|)
    {
      ok, vals := true, s;
      var n := 0;
      while ok && n < |tx.instructions|
        invariant 0 <= n <= |tx.instructions|
        invariant ok ==> RunSome(TxEnv(sha), tx, s, n) == Ok(vals)
        invariant !ok ==> RunAll(TxEnv(sha), tx, s).Err?
        invariant ok ==> Working(tx, infos, vals) && FlagsAre(infos, tx, n)
        decreases ok, |tx.instructions| - n
      {
        ok, vals := ExecuteNext(tx, infos, n, s, vals);
        n := n + 1;
      }
    }

    /** Writes the marked accounts back. */
    method SaveModified(tx: Tx, infos: seq<LoadedAccount>, ghost vals: System.Accts) returns (modified: seq<Pubkey>)
      requires Working(tx, infos, vals) && FlagsAre(infos, tx, |tx.instructions|)
      requires accounts.closed ==> infos == []
      modifies accounts`accounts
      ensures accounts.accounts == Save(old(accounts.accounts), tx, vals, |vals|)
      ensures modified == SavedKeys(tx, |vals|)
    {
      modified := [];
      var i := 0;
      while i < |infos|
        invariant 0 <= i <= |infos|
        invariant accounts.accounts == Save(old(accounts.accounts), tx, vals, i) && modified == SavedKeys(tx, i)
      {
        if infos[i].modified {
          var a := infos[i].account;
          assert a.View() == vals[i];
          var ok := accounts.SetAccount(infos[i].key, Account(a.lamports, a.data, a.owner, a.executable, a.rentEpoch));
          assert ok;
          modified := modified + [infos[i].key];
        }
        i := i + 1;
      }
    }

    method Execute(tx: Tx) returns (success: bool, modified: seq<Pubkey>)
      modifies accounts`accounts
      ensures Outcome(success, accounts.accounts, modified)
        == Executed(sha, accounts.closed, old(accounts.accounts), tx)
    {
      var loaded := LoadAccounts(tx);
      if loaded.None? { return false, [tx.keys[0]]; }
      var infos := loaded.value;
      ghost var s := LoadAll(accounts.accounts, tx);
      ghost var vals;
      success, vals := ExecuteAll(tx, infos, s);
      if !success { return false, if |infos| > 0 then [infos[0].key] else []; }
      modified := SaveModified(tx, infos, vals);
    }
  }

  lemma MarkedNext(tx: Tx, n: nat, i: nat)
    requires n < |tx.instructions|
    ensures Marked(tx, n + 1, i) == (Marked(tx, n, i) || MarkedBy(tx, tx.instructions[n], i))
  {
    if MarkedBy(tx, tx.instructions[n], i) { assert MarkedBy(tx, tx.instructions[n], i); }
  }

  lemma NothingMarked(tx: Tx, n: nat)
    requires n < |tx.instructions| && !Marks(tx, tx.instructions[n])
    ensures forall k: nat :: Marked(tx, n + 1, k) == Marked(tx, n, k)
  {
    forall k: nat ensures Marked(tx, n + 1, k) == Marked(tx, n, k) { MarkedNext(tx, n, k); }
  }

  lemma SystemIns(e: System.Env, tx: Tx, s: System.Accts, ins: Ins)
    requires ins.program < |tx.keys| && tx.keys[ins.program] == System.PROGRAM_ID && IndexesFit(ins, |s|)
    ensures var r := System.Process(e, s, ins.accounts, ins.data);
      RunIns(e, tx, s, ins) == if r.Ok? then Ok(r.value) else Err(Refused(r.error))
  {
  }

  lemma StepTo(e: System.Env, tx: Tx, s: System.Accts, n: nat, vals: System.Accts)
    requires n < |tx.instructions| && RunSome(e, tx, s, n) == Ok(vals)
    ensures RunSome(e, tx, s, n + 1) == RunIns(e, tx, vals, tx.instructions[n])
  {
  }
}
