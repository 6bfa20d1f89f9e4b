/** Where the contents of a replayed slot come from (pkg/replayer/replayer.go): every entry
    of a run's log, from the stored block and the database before it. */
module ReplayEntries {
  import opened Bytes
  import opened Accounts
  import opened Store
  import opened Transactions
  import opened TxExecutor
  import opened TxFlags
  import opened BankHash
  import opened Replay
  import StateHash

  /** The signatures of all transactions, whether or not they succeed. */
  function Signatures(txs: seq<Tx>): nat {
    if txs == [] then 0 else Signatures(txs[..|txs| - 1]) + txs[|txs| - 1].signatures
  }

  /** Each transaction runs on the database that the one before left. */
  ghost predicate Chain(w: World, txs: seq<Tx>, dbs: seq<AccountMap>) {
    |dbs| == |txs| + 1 && forall i :: 0 <= i < |txs| ==> Links(w, txs, dbs, i)
  }

  ghost predicate Links(w: World, txs: seq<Tx>, dbs: seq<AccountMap>, i: nat)
    requires i < |txs| < |dbs|
  {
    dbs[i + 1] == Executed(w.sha, w.closed, dbs[i], txs[i]).db
  }

  /** Transaction i touches k: with a saved position if it succeeds, and if it fails as its
      first key. */
  ghost predicate Touches(w: World, txs: seq<Tx>, dbs: seq<AccountMap>, i: nat, k: Pubkey)
    requires i < |txs| && i < |dbs|
  {
    if Executed(w.sha, w.closed, dbs[i], txs[i]).success then SavedKey(txs[i], |txs[i].keys|, k)
    else |txs[i].keys| > 0 && txs[i].keys[0] == k
  }

  ghost predicate Touched(w: World, txs: seq<Tx>, dbs: seq<AccountMap>, k: Pubkey)
    requires |txs| <= |dbs|
  {
    exists i :: 0 <= i < |txs| && Touches(w, txs, dbs, i, k)
  }

  lemma ReportsTouched(w: World, before: Work, tx: Tx, k: Pubkey)
    ensures k in RunTx(w, before, tx).modified <==>
      k in before.modified || Touches(w, [tx], [before.db], 0, k)
  {
    ReportedExactly(w.sha, before.db, tx, k);
  }

  lemma WrapAddIs(a: nat, n: nat)
    ensures WrapAdd(a % 0x1_0000_0000_0000_0000, n % 0x1_0000_0000_0000_0000) == (a + n) % 0x1_0000_0000_0000_0000
  {
    var m := 0x1_0000_0000_0000_0000;
    assert a + n == m * (a / m + n / m) + (a % m + n % m);
  }

  /** The work of a slot, transaction by transaction. */
  lemma {:induction false} WorkExactly(w: World, db: AccountMap, txs: seq<Tx>) returns (dbs: seq<AccountMap>)
    ensures Chain(w, txs, dbs) && dbs[0] == db && dbs[|txs|] == RunTxs(w, db, txs).db
    ensures forall k :: k in RunTxs(w, db, txs).modified <==> Touched(w, txs, dbs, k)
    ensures RunTxs(w, db, txs).signatures == Signatures(txs) % 0x1_0000_0000_0000_0000
    decreases |txs|
  {
    if txs == [] {
      dbs := [db];
    } else {
      var (most, tx) := (txs[..|txs| - 1], txs[|txs| - 1]);
      var before := RunTxs(w, db, most);
      var front := WorkExactly(w, db, most);
      assert RunTxs(w, db, txs) == RunTx(w, before, tx);
      WrapAddIs(Signatures(most), tx.signatures);
      dbs := front + [RunTx(w, before, tx).db];
      ChainMore(w, txs, front, dbs);
      forall k ensures k in RunTx(w, before, tx).modified <==> Touched(w, txs, dbs, k) {
        TouchedNow(w, before, txs, front, dbs, k);
      }
    }
  }

  lemma TouchedNow(w: World, before: Work, txs: seq<Tx>, front: seq<AccountMap>, dbs: seq<AccountMap>, k: Pubkey)
    requires txs != [] && |front| == |txs| && |dbs| == |txs| + 1 && dbs[..|txs|] == front
    requires front[|txs| - 1] == before.db
    requires k in before.modified <==> Touched(w, txs[..|txs| - 1], front, k)
    ensures k in RunTx(w, before, txs[|txs| - 1]).modified <==> Touched(w, txs, dbs, k)
  {
    ReportsTouched(w, before, txs[|txs| - 1], k);
    TouchedMore(w, txs, front, dbs, k);
  }

  lemma ChainMore(w: World, txs: seq<Tx>, front: seq<AccountMap>, dbs: seq<AccountMap>)
    requires txs != [] && Chain(w, txs[..|txs| - 1], front)
    requires dbs == front + [Executed(w.sha, w.closed, front[|txs| - 1], txs[|txs| - 1]).db]
    ensures Chain(w, txs, dbs)
  {
    var most := txs[..|txs| - 1];
    forall i | 0 <= i < |txs| ensures Links(w, txs, dbs, i) {
      if i < |most| { assert Links(w, most, front, i); }
    }
  }

  lemma TouchedMore(w: World, txs: seq<Tx>, front: seq<AccountMap>, dbs: seq<AccountMap>, k: Pubkey)
    requires txs != [] && |front| == |txs| && |dbs| == |txs| + 1 && dbs[..|txs|] == front
    ensures Touched(w, txs, dbs, k) <==>
      || Touched(w, txs[..|txs| - 1], front, k)
      || Touches(w, [txs[|txs| - 1]], [front[|txs| - 1]], 0, k)
  {
    var (n, most) := (|txs| - 1, txs[..|txs| - 1]);
    assert front[n] == dbs[n];
    assert Touches(w, txs, dbs, n, k) == Touches(w, [txs[n]], [front[n]], 0, k);
    forall i | 0 <= i < n ensures Touches(w, txs, dbs, i, k) == Touches(w, most, front, i, k) {
      assert front[i] == dbs[i];
    }
    if Touched(w, txs, dbs, k) {
      var i :| 0 <= i < |txs| && Touches(w, txs, dbs, i, k);
      assert i < n ==> Touches(w, most, front, i, k);
    }
    if Touched(w, most, front, k) {
      var i :| 0 <= i < |most| && Touches(w, most, front, i, k);
      assert Touches(w, txs, dbs, i, k);
    }
  }

  /** The accounts under these keys, None for those that do not exist. */
  ghost predicate Lists(contents: seq<StateHash.Content>, db: AccountMap, keys: seq<Pubkey>) {
    |contents| == |keys| && forall i :: 0 <= i < |keys| ==>
      contents[i] == if keys[i] in db then Some((keys[i], db[keys[i]])) else None
  }

  /** An entry is what the block and the database before it make it: previous and present
      blockhash, the sum of all signatures modulo 2^64, the touched keys, and the accounts
      under them afterwards in the order of their keys. */
  ghost predicate Records(w: World, e: Entry, b: Block, dbs: seq<AccountMap>, keys: seq<Pubkey>) {
    && e.previous == b.previousBlockhash && e.info.blockhash == b.blockhash
    && e.info.signatures == Signatures(b.transactions) % 0x1_0000_0000_0000_0000
    && Chain(w, b.transactions, dbs)
    && (forall k :: k in e.modified <==> Touched(w, b.transactions, dbs, k))
    && multiset(keys) == multiset(e.modified) && StateHash.Sorted(keys)
    && if w.hashable then Lists(e.contents, dbs[|b.transactions|], keys) else e.contents == []
  }

  lemma MadeEntry(w: World, st: State, db: AccountMap, slot: u64)
    returns (dbs: seq<AccountMap>, keys: seq<Pubkey>)
    requires slot in w.blocks
    ensures var work := RunTxs(w, db, w.blocks[slot].transactions);
      && Records(w, MakeEntry(w, st, slot, work), w.blocks[slot], dbs, keys)
      && dbs[0] == db && dbs[|w.blocks[slot].transactions|] == work.db
  {
    var txs := w.blocks[slot].transactions;
    dbs := WorkExactly(w, db, txs);
    var work := RunTxs(w, db, txs);
    keys := StateHash.Sort(StateHash.AnyOrder(work.modified));
    StateHash.SortSorts(StateHash.AnyOrder(work.modified));
  }

  /** The entry comes from request j: that slot's block, on the database as the requests
      before had left it. */
  ghost predicate ComesFrom(w: World, start: State, db: AccountMap, slots: seq<u64>, e: Entry, j: nat,
      dbs: seq<AccountMap>, keys: seq<Pubkey>)
  {
    && j < |slots| && e.slot == slots[j] && e.slot in w.blocks && Records(w, e, w.blocks[e.slot], dbs, keys)
    && dbs[0] == Requests(w, start, db, slots[..j]).db
    && dbs[|w.blocks[e.slot].transactions|] == Requests(w, start, db, slots[..j + 1]).db
  }

  lemma StillComes(w: World, start: State, db: AccountMap, slots: seq<u64>, e: Entry, j: nat,
      dbs: seq<AccountMap>, keys: seq<Pubkey>)
    requires slots != [] && ComesFrom(w, start, db, slots[..|slots| - 1], e, j, dbs, keys)
    ensures ComesFrom(w, start, db, slots, e, j, dbs, keys)
  {
    var before := slots[..|slots| - 1];
    assert before[..j] == slots[..j] && before[..j + 1] == slots[..j + 1] && before[j] == slots[j];
  }

  /** Every entry of a run's log comes from one of its requests. */
  lemma {:induction false} EntryExactly(w: World, start: State, db: AccountMap, slots: seq<u64>, i: nat)
    returns (j: nat, dbs: seq<AccountMap>, keys: seq<Pubkey>)
    requires i < |Requests(w, start, db, slots).log|
    ensures ComesFrom(w, start, db, slots, Requests(w, start, db, slots).log[i], j, dbs, keys)
    decreases |slots|
  {
    var before := slots[..|slots| - 1];
    var h := Requests(w, start, db, before);
    assert Requests(w, start, db, slots) == LastRequest(w, start, db, slots);
    if i < |h.log| {
      j, dbs, keys := EntryExactly(w, start, db, before, i);
      StillComes(w, start, db, slots, h.log[i], j, dbs, keys);
    } else {
      j := |slots| - 1;
      dbs, keys := LastEntry(w, h, slots[j]);
      LastComes(w, start, db, slots, h, dbs, keys);
    }
  }

  lemma LastComes(w: World, start: State, db: AccountMap, slots: seq<u64>, h: History,
      dbs: seq<AccountMap>, keys: seq<Pubkey>)
    requires slots != [] && h == Requests(w, start, db, slots[..|slots| - 1])
    requires var s := ReplaySlot(w, h.st, h.db, slots[|slots| - 1]);
      && |s.log| == 1 && s.log[0].slot == slots[|slots| - 1] && slots[|slots| - 1] in w.blocks
      && Records(w, s.log[0], w.blocks[slots[|slots| - 1]], dbs, keys)
      && dbs[0] == h.db && dbs[|w.blocks[slots[|slots| - 1]].transactions|] == s.db
    ensures var s := ReplaySlot(w, h.st, h.db, slots[|slots| - 1]);
      ComesFrom(w, start, db, slots, s.log[0], |slots| - 1, dbs, keys)
  {
    assert slots[..|slots| - 1 + 1] == slots;
    assert Requests(w, start, db, slots) == LastRequest(w, start, db, slots);
  }

  lemma LastEntry(w: World, h: History, slot: u64) returns (dbs: seq<AccountMap>, keys: seq<Pubkey>)
    requires ReplaySlot(w, h.st, h.db, slot).log != []
    ensures var s := ReplaySlot(w, h.st, h.db, slot);
      && |s.log| == 1 && s.log[0].slot == slot && slot in w.blocks
      && Records(w, s.log[0], w.blocks[slot], dbs, keys)
      && dbs[0] == h.db && dbs[|w.blocks[slot].transactions|] == s.db
  {
    dbs, keys := MadeEntry(w, h.st, h.db, slot);
  }

  // -------------------------------------------------------------------- acceptance

  predicate Acceptable(w: World, st: State, slot: u64) {
    && slot in w.blocks
    && (st.slot == 0 || (slot > st.slot && w.blocks[slot].previousBlockhash == st.blockhash))
  }

  /** Exactly which requests are accepted: those for a stored slot above the current one
      that names the last blockhash, or for any stored slot while the current one is zero;
      over an open database. */
  lemma AcceptedExactly(w: World, st: State, db: AccountMap, slot: u64)
    ensures var s := ReplaySlot(w, st, db, slot);
      && (s.outcome.Ok? <==> !w.closed && Acceptable(w, st, slot))
      && (s.outcome.Ok? ==>
            && |s.log| == 1 && s.outcome.value == s.log[0].bank
            && s.st == State(slot, w.blocks[slot].blockhash, s.log[0].bank, s.log[0].modified, s.log[0].info.signatures)
            && s.log[0].info.parent == st.bankhash
            && s.log[0].info.delta == StateHash.Commit(w.sha, 2, s.log[0].contents)
            && s.log[0].bank == w.sha(BankPre(s.log[0].info)))
  {
  }

  /** What the refusals mean, and that those before execution change nothing. */
  lemma RefusedExactly(w: World, st: State, db: AccountMap, slot: u64)
    requires ReplaySlot(w, st, db, slot).outcome.Err?
    ensures var s := ReplaySlot(w, st, db, slot);
      match s.outcome.error
      case AlreadyProcessed => 0 < st.slot && slot <= st.slot && s.st == st && s.db == db
      case MissingBlock => slot !in w.blocks && s.st == st && s.db == db
      case BlockhashMismatch =>
        slot in w.blocks && w.blocks[slot].previousBlockhash != st.blockhash && s.st == st && s.db == db
      case HashFailed => w.closed && w.hashable && s.st.slot == st.slot && s.st.bankhash == st.bankhash
      case SlotNotSaved => w.closed && |s.log| == 1 && s.st.slot == slot
  {
  }
}
