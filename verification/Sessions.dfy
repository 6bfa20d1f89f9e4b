/** What survives closing and reopening a BadgerDB (pkg/accounts/store.go): the
    accounts do, the slot and the cached count only as of the last Commit. */
module Sessions {
  import opened Bytes
  import opened Accounts
  import opened Store

  /** An open database: its files with the cached count, and the slot in memory. */
  datatype Open = Open(d: Disk, slot: u64)

  datatype Act = Use(op: Op) | MoveSlot(slot: u64) | Save

  function Do(o: Open, a: Act): Open {
    match a
    case Use(op) => o.(d := DiskStep(o.d, op).0)
    case MoveSlot(slot) => o.(slot := slot)
    case Save => o.(d := Commit(o.d, o.slot))
  }

  function Session(o: Open, acts: seq<Act>): Open {
    if acts == [] then o else Do(Session(o, acts[..|acts| - 1]), acts[|acts| - 1])
  }

  /** Close saves nothing, so reopening finds the files as they are. */
  function Reopened(o: Open): Open {
    Open(Reopen(o.d), Loaded(o.d.kv, META_SLOT))
  }

  /** The count and the slot at the last Commit, or those on file at the start. */
  function LastSaved(o: Open, acts: seq<Act>): (u64, u64) {
    if acts == [] then (Loaded(o.d.kv, META_COUNT), Loaded(o.d.kv, META_SLOT))
    else if acts[|acts| - 1].Save? then
      var now := Session(o, acts[..|acts| - 1]);
      (now.d.count, now.slot)
    else LastSaved(o, acts[..|acts| - 1])
  }

  // -------------------------------------------- accounts and metadata are apart

  predicate MetaKey(key: Key) {
    |key| > 0 && key[0] == 2
  }

  /** The two maps agree at a metadata key. */
  predicate SameMeta(kv: map<Key, seq<byte>>, other: map<Key, seq<byte>>, key: Key) {
    (key in kv <==> key in other) && (key in kv ==> kv[key] == other[key])
  }

  lemma NotAnAccountKey(k: Pubkey, key: Key)
    requires MetaKey(key)
    ensures AccountKey(k) != key
  {
    assert AccountKey(k)[0] == 1;
  }

  lemma {:induction false} GatherKeepsMeta(kv: map<Key, seq<byte>>, ws: seq<Write>, key: Key)
    requires MetaKey(key)
    ensures SameMeta(Apply(kv, Gather(kv, ws).pending), kv, key)
    decreases |ws|
  {
    if ws != [] {
      var b, w := Gather(kv, ws[..|ws| - 1]), ws[|ws| - 1];
      GatherKeepsMeta(kv, ws[..|ws| - 1], key);
      NotAnAccountKey(w.key, key);
      if Puts(w) {
        ApplyLast(kv, b.pending, AccountKey(w.key), Some(Serialized(w.account)));
      } else if AccountKey(w.key) in kv {
        ApplyLast(kv, b.pending, AccountKey(w.key), None);
      }
    }
  }

  lemma UseKeepsMeta(d: Disk, op: Op, key: Key)
    requires MetaKey(key)
    ensures SameMeta(DiskStep(d, op).0.kv, d.kv, key)
  {
    match op
    case Set(k, a) => NotAnAccountKey(k, key);
    case Delete(k) => NotAnAccountKey(k, key);
    case Flush(ws) => GatherKeepsMeta(d.kv, ws, key);
    case _ =>
  }

  lemma SavedIsLoaded(d: Disk, slot: u64)
    ensures Loaded(Commit(d, slot).kv, META_COUNT) == d.count && Loaded(Commit(d, slot).kv, META_SLOT) == slot
  {
    LE8(d.count);
    LE8(slot);
    assert LE(d.count, 8)[..8] == LE(d.count, 8) && LE(slot, 8)[..8] == LE(slot, 8);
  }

  // ------------------------------------------------------------------ the sessions

  /** Whatever a session does, reopening after Close finds all accounts, and the count
      and the slot of the last Commit. */
  lemma {:induction false} ReopenedIsLastSaved(o: Open, acts: seq<Act>)
    ensures Reopened(Session(o, acts)).d.kv == Session(o, acts).d.kv
    ensures (Reopened(Session(o, acts)).d.count, Reopened(Session(o, acts)).slot) == LastSaved(o, acts)
    decreases |acts|
  {
    if acts != [] {
      var before, a := Session(o, acts[..|acts| - 1]), acts[|acts| - 1];
      ReopenedIsLastSaved(o, acts[..|acts| - 1]);
      match a
      case Use(op) =>
        UseKeepsMeta(before.d, op, META_SLOT);
        UseKeepsMeta(before.d, op, META_COUNT);
      case MoveSlot(_) =>
      case Save => SavedIsLoaded(before.d, before.slot);
    }
  }

  /** Closing loses the count, the slot or both, exactly when they differ from those of
      the last Commit. */
  lemma CloseExact(o: Open, acts: seq<Act>)
    ensures var end := Session(o, acts);
      Reopened(end) == end <==> LastSaved(o, acts) == (end.d.count, end.slot)
  {
    ReopenedIsLastSaved(o, acts);
  }

  /** So a session that does not commit loses them: from an empty store, one account and
      a slot, then Close, and the store opens with that account, count zero and slot
      zero. */
  lemma CloseLosesMetadata(k: Pubkey, a: Account, slot: u64)
    requires !IsZero(a) && slot != 0
    ensures var o := Open(Disk(map[], 0), 0);
      var end := Session(o, [Use(Set(k, a)), MoveSlot(slot)]);
      && Refines(end.d, map[k := a]) && end.slot == slot
      && Holds(Reopened(end).d.kv, map[k := a]) && Reopened(end).d.count == 0 && Reopened(end).slot == 0
  {
    var o := Open(Disk(map[], 0), 0);
    var acts := [Use(Set(k, a)), MoveSlot(slot)];
    assert acts[..1] == [acts[0]] && [acts[0]][..0] == [];
    assert Session(o, []) == o && LastSaved(o, []) == (0, 0);
    assert Session(o, [acts[0]]) == Do(o, acts[0]) && LastSaved(o, [acts[0]]) == (0, 0);
    assert Refines(o.d, map[]);
    SetRefines(o.d, map[], k, a);
    assert MemSet(map[], k, a) == map[k := a];
    ReopenedIsLastSaved(o, acts);
  }
}
