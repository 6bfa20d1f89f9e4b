/** The two account stores: MemoryDB, a map (pkg/accounts/accounts.go), and
    BadgerDB, serialized bytes under byte keys with a cached count
    (pkg/accounts/store.go). BadgerDB refines MemoryDB. */
module Store {
  import opened Bytes
  import opened Accounts

  type AccountMap = map<Pubkey, Account>
  type Key = seq<byte>

  // ------------------------------------------------- the map, and the bytes

  function MemSet(m: AccountMap, k: Pubkey, a: Account): AccountMap {
    if IsZero(a) then m - {k} else m[k := a]
  }

  /** The state behind a BadgerDB: the key-value pairs and the cached count. */
  datatype Disk = Disk(kv: map<Key, seq<byte>>, count: u64)

  const PREFIX_ACCOUNT: seq<byte> := [0x01]
  const META_SLOT: Key := [0x02, 0x73, 0x6c, 0x6f, 0x74]
  const META_COUNT: Key := [0x02, 0x63, 0x6f, 0x75, 0x6e, 0x74]

  function AccountKey(k: Pubkey): (key: Key)
    ensures |key| == 33
  {
    PREFIX_ACCOUNT + k
  }

  function AddCount(count: u64, delta: int): u64 {
    (count + delta) % 0x1_0000_0000_0000_0000
  }

  lemma AddCountTwice(count: u64, d: int, e: int)
    ensures AddCount(AddCount(count, d), e) == AddCount(count, d + e)
    ensures AddCount(AddCount(count, d), 0) == AddCount(count, d)
  {
  }

  function DiskGet(kv: map<Key, seq<byte>>, k: Pubkey): Result<Account, AccountError> {
    if AccountKey(k) in kv then Deserialize(kv[AccountKey(k)]) else Err(NotFound)
  }

  function DiskDelete(d: Disk, k: Pubkey): Disk {
    if AccountKey(k) in d.kv then Disk(d.kv - {AccountKey(k)}, AddCount(d.count, -1)) else d
  }

  function DiskSet(d: Disk, k: Pubkey, a: Account): Disk {
    if IsZero(a) then DiskDelete(d, k)
    else Disk(d.kv[AccountKey(k) := Serialized(a)], if AccountKey(k) in d.kv then d.count else AddCount(d.count, 1))
  }

  // ------------------------------------------------------------------ batches

  datatype Write = Put(key: Pubkey, account: Account) | Remove(key: Pubkey)

  /** What a BatchWriter has gathered. Whether a key exists is always asked of
      the database itself, never of the batch. */
  datatype Batch = Batch(pending: seq<(Key, Option<seq<byte>>)>, added: nat, deleted: nat)

  function BatchRemove(kv: map<Key, seq<byte>>, b: Batch, k: Pubkey): Batch {
    if AccountKey(k) in kv then Batch(b.pending + [(AccountKey(k), None)], b.added, b.deleted + 1) else b
  }

  function BatchPut(kv: map<Key, seq<byte>>, b: Batch, k: Pubkey, a: Account): Batch {
    if IsZero(a) then BatchRemove(kv, b, k)
    else Batch(b.pending + [(AccountKey(k), Some(Serialized(a)))],
               if AccountKey(k) in kv then b.added else b.added + 1, b.deleted)
  }

  function BatchAdd(kv: map<Key, seq<byte>>, b: Batch, w: Write): Batch {
    match w
    case Put(k, a) => BatchPut(kv, b, k, a)
    case Remove(k) => BatchRemove(kv, b, k)
  }

  function Gather(kv: map<Key, seq<byte>>, ws: seq<Write>): Batch {
    if ws == [] then Batch([], 0, 0) else BatchAdd(kv, Gather(kv, ws[..|ws| - 1]), ws[|ws| - 1])
  }

  function Apply(kv: map<Key, seq<byte>>, pending: seq<(Key, Option<seq<byte>>)>): map<Key, seq<byte>> {
    if pending == [] then kv else
    var before := Apply(kv, pending[..|pending| - 1]);
    var (key, value) := pending[|pending| - 1];
    if value.Some? then before[key := value.value] else before - {key}
  }

  function DiskFlush(d: Disk, b: Batch): Disk {
    Disk(Apply(d.kv, b.pending), AddCount(d.count, b.added - b.deleted))
  }

  function MemWrite(m: AccountMap, w: Write): AccountMap {
    match w
    case Put(k, a) => MemSet(m, k, a)
    case Remove(k) => m - {k}
  }

  function MemWrites(m: AccountMap, ws: seq<Write>): AccountMap {
    if ws == [] then m else MemWrite(MemWrites(m, ws[..|ws| - 1]), ws[|ws| - 1])
  }

  predicate DistinctKeys(ws: seq<Write>) {
    forall i, j :: 0 <= i < j < |ws| ==> ws[i].key != ws[j].key
  }

  // --------------------------------------------------------------- refinement

  ghost predicate Stored(kv: map<Key, seq<byte>>, m: AccountMap, k: Pubkey) {
    && (AccountKey(k) in kv <==> k in m)
    && (k in m ==> kv[AccountKey(k)] == Serialized(m[k]))
  }

  ghost predicate Holds(kv: map<Key, seq<byte>>, m: AccountMap) {
    forall k: Pubkey :: Stored(kv, m, k)
  }

  /** The bytes hold exactly the map's accounts and the cached count is its size
      (as a u64, which is what the counter is). */
  ghost predicate Refines(d: Disk, m: AccountMap) {
    Holds(d.kv, m) && d.count == |m| % 0x1_0000_0000_0000_0000
  }

  lemma AccountKeyInjective(k: Pubkey, l: Pubkey)
    requires AccountKey(k) == AccountKey(l)
    ensures k == l
  {
    assert AccountKey(k)[1..] == k && AccountKey(l)[1..] == l;
  }

  lemma HoldsPut(kv: map<Key, seq<byte>>, m: AccountMap, k: Pubkey, a: Account)
    requires Holds(kv, m)
    ensures Holds(kv[AccountKey(k) := Serialized(a)], m[k := a])
  {
    var kv', m' := kv[AccountKey(k) := Serialized(a)], m[k := a];
    forall l: Pubkey ensures Stored(kv', m', l) {
      assert Stored(kv, m, l);
      if AccountKey(l) == AccountKey(k) { AccountKeyInjective(l, k); }
    }
  }

  lemma HoldsRemove(kv: map<Key, seq<byte>>, m: AccountMap, k: Pubkey)
    requires Holds(kv, m)
    ensures Holds(kv - {AccountKey(k)}, m - {k})
  {
    var kv', m' := kv - {AccountKey(k)}, m - {k};
    forall l: Pubkey ensures Stored(kv', m', l) {
      assert Stored(kv, m, l);
      if AccountKey(l) == AccountKey(k) { AccountKeyInjective(l, k); }
    }
  }

  lemma PutSize(m: AccountMap, k: Pubkey, a: Account)
    ensures |m[k := a]| == if k in m then |m| else |m| + 1
  {
    assert m[k := a].Keys == m.Keys + {k};
    assert |m[k := a]| == |m[k := a].Keys| && |m| == |m.Keys|;
  }

  lemma RemoveSize(m: AccountMap, k: Pubkey)
    ensures |m - {k}| == if k in m then |m| - 1 else |m|
  {
    assert (m - {k}).Keys == m.Keys - {k};
    assert |m - {k}| == |(m - {k}).Keys| && |m| == |m.Keys|;
  }

  lemma SetRefines(d: Disk, m: AccountMap, k: Pubkey, a: Account)
    requires Refines(d, m)
    ensures Refines(DiskSet(d, k, a), MemSet(m, k, a))
  {
    if IsZero(a) {
      DeleteRefines(d, m, k);
    } else {
      assert Stored(d.kv, m, k);
      PutSize(m, k, a);
      AddCountOfSize(|m|, 1);
      HoldsPut(d.kv, m, k, a);
    }
  }

  lemma DeleteRefines(d: Disk, m: AccountMap, k: Pubkey)
    requires Refines(d, m)
    ensures Refines(DiskDelete(d, k), m - {k})
  {
    assert Stored(d.kv, m, k);
    RemoveSize(m, k);
    if k in m { HoldsRemove(d.kv, m, k); AddCountOfSize(|m|, -1); } else { assert m - {k} == m; }
  }

  /** A read agrees with the map exactly when the account fits the size limit. */
  lemma GetRefines(kv: map<Key, seq<byte>>, m: AccountMap, k: Pubkey)
    requires Holds(kv, m) && (k in m ==> |m[k].data| < U64_SIZE)
    ensures DiskGet(kv, k) == (if k in m then Ok(m[k]) else Err(NotFound)) <==> (k in m ==> |m[k].data| <= MAX_DATA)
  {
    assert Stored(kv, m, k);
    if k in m {
      SerializedRoundTrip(m[k], []);
      assert Serialized(m[k]) + [] == Serialized(m[k]);
    }
  }

  lemma ApplyLast(kv: map<Key, seq<byte>>, pending: seq<(Key, Option<seq<byte>>)>, key: Key, value: Option<seq<byte>>)
    ensures Apply(kv, pending + [(key, value)])
         == if value.Some? then Apply(kv, pending)[key := value.value] else Apply(kv, pending) - {key}
  {
    var all := pending + [(key, value)];
    assert all[..|all| - 1] == pending;
  }

  // ------------------------------------------------------ what a batch comes to

  predicate Puts(w: Write) {
    w.Put? && !IsZero(w.account)
  }

  /** The map that a flushed batch leaves: a removal is dropped when the store did not
      have the key before the batch, whatever the batch has put there. */
  function BatchMap(m: AccountMap, ws: seq<Write>): AccountMap {
    if ws == [] then m else
    var here, w := BatchMap(m, ws[..|ws| - 1]), ws[|ws| - 1];
    if Puts(w) then here[w.key := w.account] else if w.key in m then here - {w.key} else here
  }

  lemma {:induction false} BatchIsBatchMap(kv: map<Key, seq<byte>>, m: AccountMap, ws: seq<Write>)
    requires Holds(kv, m)
    ensures Holds(Apply(kv, Gather(kv, ws).pending), BatchMap(m, ws))
    decreases |ws|
  {
    if ws != [] {
      var init, w := ws[..|ws| - 1], ws[|ws| - 1];
      BatchIsBatchMap(kv, m, init);
      assert Stored(kv, m, w.key);
      var b, here := Gather(kv, init), BatchMap(m, init);
      if Puts(w) {
        ApplyLast(kv, b.pending, AccountKey(w.key), Some(Serialized(w.account)));
        HoldsPut(Apply(kv, b.pending), here, w.key, w.account);
      } else if w.key in m {
        ApplyLast(kv, b.pending, AccountKey(w.key), None);
        HoldsRemove(Apply(kv, b.pending), here, w.key);
      }
    }
  }

  /** The last write to a key. */
  function LastOn(ws: seq<Write>, k: Pubkey): Option<Write> {
    if ws == [] then None else if ws[|ws| - 1].key == k then Some(ws[|ws| - 1]) else LastOn(ws[..|ws| - 1], k)
  }

  predicate PutIn(ws: seq<Write>, k: Pubkey) {
    exists i :: 0 <= i < |ws| && ws[i].key == k && Puts(ws[i])
  }

  /** The batch puts a key that is new to the store, and ends by removing it. */
  predicate Stray(m: AccountMap, ws: seq<Write>, k: Pubkey) {
    k !in m && PutIn(ws, k) && LastOn(ws, k).Some? && !Puts(LastOn(ws, k).value)
  }

  /** Whether a key is there after the writes, made one by one. */
  predicate Present(m: AccountMap, ws: seq<Write>, k: Pubkey) {
    var w := LastOn(ws, k);
    if w.None? then k in m else Puts(w.value)
  }

  lemma PutInMore(ws: seq<Write>, k: Pubkey)
    requires ws != []
    ensures PutIn(ws, k) <==> PutIn(ws[..|ws| - 1], k) || (ws[|ws| - 1].key == k && Puts(ws[|ws| - 1]))
  {
    var init, w := ws[..|ws| - 1], ws[|ws| - 1];
    if PutIn(init, k) {
      var i :| 0 <= i < |init| && init[i].key == k && Puts(init[i]);
      assert ws[i] == init[i];
    }
    if PutIn(ws, k) {
      var i :| 0 <= i < |ws| && ws[i].key == k && Puts(ws[i]);
      assert i < |init| ==> init[i] == ws[i];
    }
  }

  /** Per key: a batch differs from its writes, made one by one, only by what it leaves
      behind of keys it puts and then removes. */
  lemma {:induction false} BatchMapAt(m: AccountMap, ws: seq<Write>, k: Pubkey)
    ensures k in MemWrites(m, ws) <==> Present(m, ws, k)
    ensures k in BatchMap(m, ws) <==> k in MemWrites(m, ws) || Stray(m, ws, k)
    ensures k in MemWrites(m, ws) ==> BatchMap(m, ws)[k] == MemWrites(m, ws)[k]
    ensures PutIn(ws, k) ==> LastOn(ws, k).Some?
    ensures k in BatchMap(m, ws) <==> if k in m then Present(m, ws, k) else PutIn(ws, k)
    decreases |ws|
  {
    if ws != [] {
      BatchMapAt(m, ws[..|ws| - 1], k);
      PutInMore(ws, k);
    }
  }

  predicate NoStray(m: AccountMap, ws: seq<Write>) {
    forall i :: 0 <= i < |ws| ==> !Stray(m, ws, ws[i].key)
  }

  lemma StrayIsWritten(m: AccountMap, ws: seq<Write>, k: Pubkey)
    requires NoStray(m, ws)
    ensures !Stray(m, ws, k)
  {
    if PutIn(ws, k) {
      var i :| 0 <= i < |ws| && ws[i].key == k && Puts(ws[i]);
      assert !Stray(m, ws, ws[i].key);
    }
  }

  /** Exactly when a flushed batch leaves the accounts that its writes leave: no key new
      to the store is put and finally removed (or zeroed) in the batch. */
  lemma BatchContentsExact(kv: map<Key, seq<byte>>, m: AccountMap, ws: seq<Write>)
    requires Holds(kv, m)
    ensures Holds(Apply(kv, Gather(kv, ws).pending), MemWrites(m, ws)) <==> NoStray(m, ws)
  {
    var after, made := Apply(kv, Gather(kv, ws).pending), MemWrites(m, ws);
    BatchIsBatchMap(kv, m, ws);
    if NoStray(m, ws) {
      forall k: Pubkey ensures Stored(after, made, k) {
        StrayIsWritten(m, ws, k);
        BatchMapAt(m, ws, k);
        assert Stored(after, BatchMap(m, ws), k);
      }
    }
    if Holds(after, made) {
      forall i | 0 <= i < |ws| ensures !Stray(m, ws, ws[i].key) {
        var k := ws[i].key;
        BatchMapAt(m, ws, k);
        assert Stored(after, BatchMap(m, ws), k) && Stored(after, made, k);
      }
    }
  }

  /** By how much the batch's own counts exceed the change in the map's size: one for
      each write to a new key that the batch has already put, less one for each write
      to an old key that the batch has already removed. */
  function Miscount(m: AccountMap, ws: seq<Write>): int {
    if ws == [] then 0 else
    var init, k := ws[..|ws| - 1], ws[|ws| - 1].key;
    Miscount(m, init) +
      if k !in m && Present(m, init, k) then 1 else if k in m && !Present(m, init, k) then -1 else 0
  }

  lemma {:induction false} BatchCountExact(kv: map<Key, seq<byte>>, m: AccountMap, ws: seq<Write>)
    requires Holds(kv, m)
    ensures Gather(kv, ws).added - Gather(kv, ws).deleted == |MemWrites(m, ws)| - |m| + Miscount(m, ws)
    decreases |ws|
  {
    if ws != [] {
      var init, w := ws[..|ws| - 1], ws[|ws| - 1];
      BatchCountExact(kv, m, init);
      BatchMapAt(m, init, w.key);
      assert Stored(kv, m, w.key);
      if Puts(w) { PutSize(MemWrites(m, init), w.key, w.account); } else { RemoveSize(MemWrites(m, init), w.key); }
    }
  }

  predicate WholeTurns(error: int) {
    error % 0x1_0000_0000_0000_0000 == 0
  }

  lemma TurnsShift(n: nat, error: int)
    ensures (n + error) % 0x1_0000_0000_0000_0000 == n % 0x1_0000_0000_0000_0000 <==> WholeTurns(error)
  {
  }

  lemma CountsAgree(d: Disk, m: AccountMap, b: Batch, after: AccountMap, error: int)
    requires Refines(d, m) && b.added - b.deleted == |after| - |m| + error
    ensures DiskFlush(d, b).count == |after| % 0x1_0000_0000_0000_0000 <==> WholeTurns(error)
  {
    AddCountOfSize(|m|, b.added - b.deleted);
    TurnsShift(|after|, error);
  }

  /** Exactly when the bytes and the cached count (a uint64) after a flush are those of
      the map after the same writes. */
  lemma FlushExact(d: Disk, m: AccountMap, ws: seq<Write>)
    requires Refines(d, m)
    ensures Refines(DiskFlush(d, Gather(d.kv, ws)), MemWrites(m, ws)) <==> NoStray(m, ws) && WholeTurns(Miscount(m, ws))
  {
    BatchContentsExact(d.kv, m, ws);
    BatchCountExact(d.kv, m, ws);
    CountsAgree(d, m, Gather(d.kv, ws), MemWrites(m, ws), Miscount(m, ws));
  }

  predicate Untouched(ws: seq<Write>, k: Pubkey) {
    forall i :: 0 <= i < |ws| ==> ws[i].key != k
  }

  lemma {:induction false} UntouchedKeys(ws: seq<Write>, k: Pubkey)
    requires Untouched(ws, k)
    ensures LastOn(ws, k) == None && !PutIn(ws, k)
    decreases |ws|
  {
    if ws != [] { UntouchedKeys(ws[..|ws| - 1], k); }
  }

  /** Distinct keys are enough. */
  lemma {:induction false} DistinctKeysSuffice(m: AccountMap, ws: seq<Write>)
    requires DistinctKeys(ws)
    ensures NoStray(m, ws) && Miscount(m, ws) == 0
    decreases |ws|
  {
    if ws != [] {
      var init, w := ws[..|ws| - 1], ws[|ws| - 1];
      DistinctKeysSuffice(m, init);
      UntouchedKeys(init, w.key);
      PutInMore(ws, w.key);
      forall i | 0 <= i < |ws| ensures !Stray(m, ws, ws[i].key) {
        if i < |init| {
          PutInMore(ws, ws[i].key);
          assert !Stray(m, init, init[i].key);
        }
      }
    }
  }

  /** Gathering writes to distinct keys and flushing them is performing them one
      by one, and the batch's own counts are the change in the map's size. */
  lemma BatchRefines(kv: map<Key, seq<byte>>, m: AccountMap, ws: seq<Write>)
    requires Holds(kv, m) && DistinctKeys(ws)
    ensures Holds(Apply(kv, Gather(kv, ws).pending), MemWrites(m, ws))
    ensures |MemWrites(m, ws)| == |m| + Gather(kv, ws).added - Gather(kv, ws).deleted
  {
    DistinctKeysSuffice(m, ws);
    BatchContentsExact(kv, m, ws);
    BatchCountExact(kv, m, ws);
  }

  // ---------------------------------------------------------------- whole runs

  datatype Op =
    | Get(key: Pubkey)
    | Has(key: Pubkey)
    | Set(key: Pubkey, account: Account)
    | Delete(key: Pubkey)
    | Count
    | Flush(writes: seq<Write>)

  datatype Reply = Found(r: Result<Account, AccountError>) | Exists(yes: bool) | Size(n: u64) | Done

  function DiskStep(d: Disk, op: Op): (Disk, Reply) {
    match op
    case Get(k) => (d, Found(DiskGet(d.kv, k)))
    case Has(k) => (d, Exists(AccountKey(k) in d.kv))
    case Set(k, a) => (DiskSet(d, k, a), Done)
    case Delete(k) => (DiskDelete(d, k), Done)
    case Count => (d, Size(d.count))
    case Flush(ws) => (DiskFlush(d, Gather(d.kv, ws)), Done)
  }

  function MemStep(m: AccountMap, op: Op): (AccountMap, Reply) {
    match op
    case Get(k) => (m, Found(if k in m then Ok(m[k]) else Err(NotFound)))
    case Has(k) => (m, Exists(k in m))
    case Set(k, a) => (MemSet(m, k, a), Done)
    case Delete(k) => (m - {k}, Done)
    case Count => (m, Size(|m| % 0x1_0000_0000_0000_0000))
    case Flush(ws) => (MemWrites(m, ws), Done)
  }

  function DiskRun(d: Disk, ops: seq<Op>): (Disk, seq<Reply>)
    decreases |ops|
  {
    if ops == [] then (d, []) else
    var (d', r) := DiskStep(d, ops[0]);
    var (d'', rs) := DiskRun(d', ops[1..]);
    (d'', [r] + rs)
  }

  function MemRun(m: AccountMap, ops: seq<Op>): (AccountMap, seq<Reply>)
    decreases |ops|
  {
    if ops == [] then (m, []) else
    var (m', r) := MemStep(m, ops[0]);
    var (m'', rs) := MemRun(m', ops[1..]);
    (m'', [r] + rs)
  }

  predicate Fits(a: Account) {
    |a.data| <= MAX_DATA
  }

  /** Accounts fit, and a batch is one that FlushExact lets through. */
  predicate OpFits(m: AccountMap, op: Op) {
    match op
    case Set(_, a) => Fits(a)
    case Flush(ws) =>
      && NoStray(m, ws) && WholeTurns(Miscount(m, ws))
      && forall i :: 0 <= i < |ws| && ws[i].Put? ==> Fits(ws[i].account)
    case _ => true
  }

  predicate OpsFit(m: AccountMap, ops: seq<Op>)
    decreases |ops|
  {
    ops == [] || (OpFits(m, ops[0]) && OpsFit(MemStep(m, ops[0]).0, ops[1..]))
  }

  ghost predicate AllFit(m: AccountMap) {
    forall k :: k in m ==> Fits(m[k])
  }

  lemma {:induction false} MemWritesFit(m: AccountMap, ws: seq<Write>)
    requires AllFit(m) && forall i :: 0 <= i < |ws| && ws[i].Put? ==> Fits(ws[i].account)
    ensures AllFit(MemWrites(m, ws))
    decreases |ws|
  {
    if ws != [] {
      var init := ws[..|ws| - 1];
      assert forall i :: 0 <= i < |init| ==> init[i] == ws[i];
      MemWritesFit(m, init);
    }
  }

  /** Every run of gets, sets, deletes and flushed batches gets the same replies,
      count included, from the bytes as from the map. */
  lemma {:induction false} RunRefines(d: Disk, m: AccountMap, ops: seq<Op>)
    requires Refines(d, m) && AllFit(m) && OpsFit(m, ops)
    ensures DiskRun(d, ops).1 == MemRun(m, ops).1
    ensures Refines(DiskRun(d, ops).0, MemRun(m, ops).0)
    decreases |ops|
  {
    if ops != [] {
      var op := ops[0];
      StepRefines(d, m, op);
      RunRefines(DiskStep(d, op).0, MemStep(m, op).0, ops[1..]);
    }
  }

  lemma AddCountOfSize(n: nat, d: int)
    ensures AddCount(n % 0x1_0000_0000_0000_0000, d) == (n + d) % 0x1_0000_0000_0000_0000
  {
  }

  lemma StepRefines(d: Disk, m: AccountMap, op: Op)
    requires Refines(d, m) && AllFit(m) && OpFits(m, op)
    ensures DiskStep(d, op).1 == MemStep(m, op).1
    ensures Refines(DiskStep(d, op).0, MemStep(m, op).0) && AllFit(MemStep(m, op).0)
  {
    match op {
      case Get(k) =>
        GetRefines(d.kv, m, k);
        assert k in m ==> Fits(m[k]);
      case Has(k) =>
        assert Stored(d.kv, m, k);
      case Set(k, a) =>
        SetRefines(d, m, k, a);
      case Delete(k) =>
        DeleteRefines(d, m, k);
      case Count =>
      case Flush(ws) =>
        FlushExact(d, m, ws);
        MemWritesFit(m, ws);
    }
  }

  /** Both halves can fail. Two writes of one new account count twice: */
  lemma PutTwiceCountsTwice(k: Pubkey, a: Account)
    requires !IsZero(a)
    ensures var ws := [Put(k, a), Put(k, a)];
      DiskFlush(Disk(map[], 0), Gather(map[], ws)).count == 2 && |MemWrites(map[], ws)| == 1
  {
    GatherTwo(map[], Put(k, a), Put(k, a));
    WritesTwo(map[], Put(k, a), Put(k, a));
  }

  /** and a write followed by a removal leaves the account behind. */
  lemma PutThenRemovedStays(k: Pubkey, a: Account)
    requires !IsZero(a)
    ensures var ws := [Put(k, a), Remove(k)];
      AccountKey(k) in DiskFlush(Disk(map[], 0), Gather(map[], ws)).kv && MemWrites(map[], ws) == map[]
  {
    GatherTwo(map[], Put(k, a), Remove(k));
    WritesTwo(map[], Put(k, a), Remove(k));
    ApplyLast(map[], [], AccountKey(k), Some(Serialized(a)));
    assert map[k := a] - {k} == map[];
  }

  lemma GatherTwo(kv: map<Key, seq<byte>>, v: Write, w: Write)
    ensures Gather(kv, [v, w]) == BatchAdd(kv, BatchAdd(kv, Batch([], 0, 0), v), w)
  {
    assert [v, w][..1] == [v] && [v][..0] == [];
    assert Gather(kv, []) == Batch([], 0, 0);
    assert Gather(kv, [v]) == BatchAdd(kv, Batch([], 0, 0), v);
  }

  lemma WritesTwo(m: AccountMap, v: Write, w: Write)
    ensures MemWrites(m, [v, w]) == MemWrite(MemWrite(m, v), w)
  {
    assert [v, w][..1] == [v] && [v][..0] == [];
    assert MemWrites(m, []) == m;
    assert MemWrites(m, [v]) == MemWrite(m, v);
  }

  // ---------------------------------------------------------- saved metadata

  function Commit(d: Disk, slot: u64): Disk {
    d.(kv := d.kv[META_SLOT := LE(slot, 8)][META_COUNT := LE(d.count, 8)])
  }

  function Loaded(kv: map<Key, seq<byte>>, key: Key): u64 {
    if key in kv && |kv[key]| >= 8 then Read8(kv[key][..8]) else 0
  }

  /** Opening the files again: the count is whatever was last saved. */
  function Reopen(d: Disk): Disk {
    Disk(d.kv, Loaded(d.kv, META_COUNT))
  }

  lemma CommitThenReopen(d: Disk, m: AccountMap, slot: u64)
    requires Refines(d, m)
    ensures Refines(Reopen(Commit(d, slot)), m) && Loaded(Commit(d, slot).kv, META_SLOT) == slot
  {
    LE8(d.count);
    LE8(slot);
    assert LE(d.count, 8)[..8] == LE(d.count, 8) && LE(slot, 8)[..8] == LE(slot, 8);
    var kv := Commit(d, slot).kv;
    forall k: Pubkey ensures Stored(kv, m, k) {
      assert Stored(d.kv, m, k);
      assert AccountKey(k)[0] == 1;
    }
  }

  // -------------------------------------------------------------- the classes

  class MemoryDB {
    var accounts: AccountMap
    var slot: u64
    var closed: bool

    constructor ()
      ensures accounts == map[] && slot == 0 && !closed
    {
      accounts, slot, closed := map[], 0, false;
    }

    method GetAccount(k: Pubkey) returns (r: Result<Account, AccountError>)
      ensures r == if closed then Err(Closed) else if k in accounts then Ok(accounts[k]) else Err(NotFound)
    {
      if closed { return Err(Closed); }
      if k !in accounts { return Err(NotFound); }
      return Ok(accounts[k]);
    }

    method SetAccount(k: Pubkey, a: Account) returns (ok: bool)
      modifies this`accounts
      ensures ok == !closed
      ensures accounts == if closed then old(accounts) else MemSet(old(accounts), k, a)
    {
      if closed { return false; }
      if IsZero(a) {
        accounts := accounts - {k};
        return true;
      }
      accounts := accounts[k := a];
      return true;
    }

    method DeleteAccount(k: Pubkey) returns (ok: bool)
      modifies this`accounts
      ensures ok == !closed
      ensures accounts == if closed then old(accounts) else old(accounts) - {k}
    {
      if closed { return false; }
      accounts := accounts - {k};
      return true;
    }

    method SetSlot(s: u64) returns (ok: bool)
      modifies this`slot
      ensures ok == !closed && slot == if closed then old(slot) else s
    {
      if closed { return false; }
      slot := s;
      return true;
    }

    method Close()
      modifies this
      ensures closed && accounts == map[] && slot == old(slot)
    {
      closed := true;
      accounts := map[];
    }
  }

  class BadgerDB {
    var kv: map<Key, seq<byte>>
    var accountsCount: u64
    var slot: u64
    var closed: bool

    ghost function State(): Disk reads this { Disk(kv, accountsCount) }

    /** Opening the files: the slot and the count are what was last saved. */
    constructor (files: map<Key, seq<byte>>)
      ensures kv == files && !closed
      ensures State() == Reopen(Disk(files, 0)) && slot == Loaded(files, META_SLOT)
    {
      kv, closed := files, false;
      slot := Loaded(files, META_SLOT);
      accountsCount := Loaded(files, META_COUNT);
    }

    method SetSlot(s: u64) returns (ok: bool)
      modifies this`slot
      ensures ok == !closed && slot == if closed then old(slot) else s
    {
      if closed { return false; }
      slot := s;
      return true;
    }

    /** What HasAccount can see: a closed database answers no, with an error that
        the batch writer ignores. */
    ghost function Visible(): map<Key, seq<byte>> reads this { if closed then map[] else kv }

    method HasAccount(k: Pubkey) returns (yes: bool)
      ensures yes <==> AccountKey(k) in Visible()
    {
      if closed { return false; }
      yes := HasAccountLocked(k);
    }

    method HasAccountLocked(k: Pubkey) returns (yes: bool)
      ensures yes <==> AccountKey(k) in kv
    {
      yes := AccountKey(k) in kv;
    }

    method GetAccount(k: Pubkey) returns (r: Result<Account, AccountError>)
      ensures r == if closed then Err(Closed) else DiskGet(kv, k)
    {
      if closed { return Err(Closed); }
      if AccountKey(k) !in kv { return Err(NotFound); }
      return Deserialize(kv[AccountKey(k)]);
    }

    method SetAccount(k: Pubkey, a: Account) returns (ok: bool)
      modifies this`kv, this`accountsCount
      ensures ok == !closed
      ensures State() == if closed then old(State()) else DiskSet(old(State()), k, a)
    {
      if closed { return false; }
      var exists_ := HasAccountLocked(k);
      if IsZero(a) {
        if exists_ {
          kv := kv - {AccountKey(k)};
          accountsCount := AddCount(accountsCount, U64_SIZE - 1);
        }
        return true;
      }
      var data := Serialize(a);
      kv := kv[AccountKey(k) := data];
      if !exists_ {
        accountsCount := AddCount(accountsCount, 1);
      }
      return true;
    }

    method DeleteAccount(k: Pubkey) returns (ok: bool)
      modifies this`kv, this`accountsCount
      ensures ok == !closed
      ensures State() == if closed then old(State()) else DiskDelete(old(State()), k)
    {
      if closed { return false; }
      var exists_ := HasAccountLocked(k);
      if !exists_ { return true; }
      kv := kv - {AccountKey(k)};
      accountsCount := AddCount(accountsCount, U64_SIZE - 1);
      return true;
    }

    method CommitMetadata() returns (ok: bool)
      modifies this`kv
      ensures ok == !closed
      ensures State() == if closed then old(State()) else Commit(old(State()), slot)
    {
      if closed { return false; }
      kv := kv[META_SLOT := LE(slot, 8)];
      kv := kv[META_COUNT := LE(accountsCount, 8)];
      return true;
    }

    /** The commit inside is always refused. */
    method Close() returns (ok: bool)
      modifies this`kv, this`closed
      ensures closed && ok == !old(closed) && kv == old(kv)
    {
      if closed { return false; }
      closed := true;
      var _ := CommitMetadata();
      return true;
    }
  }

  class BatchWriter {
    const db: BadgerDB
    var pending: seq<(Key, Option<seq<byte>>)>
    var added: nat
    var deleted: nat

    ghost function Gathered(): Batch reads this { Batch(pending, added, deleted) }

    constructor (db: BadgerDB)
      ensures this.db == db && Gathered() == Gather(db.kv, [])
    {
      this.db := db;
      pending, added, deleted := [], 0, 0;
    }

    method SetAccount(k: Pubkey, a: Account)
      modifies this
      ensures Gathered() == BatchPut(db.Visible(), old(Gathered()), k, a)
    {
      if IsZero(a) {
        DeleteAccount(k);
        return;
      }
      var exists_ := db.HasAccount(k);
      var data := Serialize(a);
      pending := pending + [(AccountKey(k), Some(data))];
      if !exists_ {
        added := added + 1;
      }
    }

    method DeleteAccount(k: Pubkey)
      modifies this
      ensures Gathered() == BatchRemove(db.Visible(), old(Gathered()), k)
    {
      var exists_ := db.HasAccount(k);
      if exists_ {
        pending := pending + [(AccountKey(k), None)];
        deleted := deleted + 1;
      }
    }

    method Flush()
      modifies this, db
      ensures db.State() == DiskFlush(old(db.State()), old(Gathered()))
      ensures added == 0 && deleted == 0 && db.closed == old(db.closed) && db.slot == old(db.slot)
    {
      var i := 0;
      var kv := db.kv;
      while i < |pending|
        invariant 0 <= i <= |pending|
        invariant kv == Apply(db.kv, pending[..i])
        decreases |pending| - i
      {
        assert pending[..i + 1][..i] == pending[..i];
        var (key, value) := pending[i];
        if value.Some? {
          kv := kv[key := value.value];
        } else {
          kv := kv - {key};
        }
        i := i + 1;
      }
      assert pending[..|pending|] == pending;
      db.kv := kv;
      AddCountTwice(db.accountsCount, added, 0 - deleted);
      db.accountsCount := AddCount(db.accountsCount, added);
      if deleted > 0 {
        db.accountsCount := AddCount(db.accountsCount, 0 - deleted);
      }
      added, deleted := 0, 0;
    }
  }
}
