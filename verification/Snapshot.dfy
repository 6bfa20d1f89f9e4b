/** Native snapshots (pkg/accounts/snapshot.go), with the gzip layer taken as the
    identity: a file is a 56-byte header followed by one record per account. */
module Snapshot {
  import opened Bytes
  import opened Accounts
  import opened Merkle
  import opened StateHash
  import opened Store

  const MAGIC: seq<byte> := [0x58, 0x31, 0x53, 0x4e]
  const VERSION: u32 := 1
  const MAX_RECORD: int := MAX_DATA + 100

  datatype Header = Header(version: u32, slot: u64, count: u64, hash: Hash)

  // ------------------------------------------------------------------ writing

  function HeaderBytes(h: Header): (s: seq<byte>)
    ensures |s| == 56
  {
    MAGIC + LE(h.version, 4) + LE(h.slot, 8) + LE(h.count, 8) + h.hash
  }

  /** The size field keeps the low 32 bits of the length. */
  function Record(k: Pubkey, a: Account): seq<byte> {
    k + LE(SizeField(|a.data|), 4) + Serialized(a)
  }

  function SizeField(dataLen: nat): u32 {
    (57 + dataLen) % 0x1_0000_0000
  }

  function Records(m: AccountMap, order: seq<Pubkey>): seq<byte>
    requires forall k :: k in order ==> k in m
  {
    if order == [] then [] else Record(order[0], m[order[0]]) + Records(m, order[1..])
  }

  /** The u64 counter, with its wrap. */
  function NextCount(n: u64): u64 {
    if n + 1 < U64_SIZE then n + 1 else 0
  }

  class SnapshotWriter {
    var file: seq<byte>
    var header: Header
    var count: u64

    constructor (slot: u64, hash: Hash)
      ensures header == Header(VERSION, slot, 0, hash) && file == HeaderBytes(header) && count == 0
    {
      var h := Header(VERSION, slot, 0, hash);
      header, file, count := h, HeaderBytes(h), 0;
    }

    method WriteAccount(k: Pubkey, a: Account)
      modifies this`file, this`count
      ensures file == old(file) + Record(k, a) && count == NextCount(old(count))
      ensures |old(file)| >= 56 ==> file[56..] == old(file)[56..] + Record(k, a)
    {
      ghost var before := file;
      file := file + k;
      var data := Serialize(a);
      file := file + LE(|data| % 0x1_0000_0000, 4);
      file := file + data;
      assert file == before + Record(k, a);
      count := NextCount(count);
    }

    /** Seeks back and overwrites the placeholder header. */
    method Close()
      requires |file| >= 56
      modifies this`file, this`header
      ensures header == old(header).(count := count)
      ensures file == HeaderBytes(header) + old(file)[56..]
    {
      header := header.(count := count);
      file := HeaderBytes(header) + file[56..];
    }
  }

  // ------------------------------------------------------------------ reading

  function ParseHeader(file: seq<byte>): Option<Header> {
    if |file| < 56 || file[..4] != MAGIC || Read4(file[4..8]) != VERSION then None
    else Some(Header(VERSION, Read8(file[8..16]), Read8(file[16..24]), file[24..56]))
  }

  /** One record off the front of the stream: key, account and what is left. */
  function ReadRecord(s: seq<byte>): Option<(Pubkey, Account, seq<byte>)> {
    if |s| < 36 then None else
    var size := Read4(s[32..36]);
    if size > MAX_RECORD || |s| - 36 < size then None else
    var a := Deserialize(s[36..36 + size]);
    if a.Err? then None else Some((s[..32], a.value, s[36 + size..]))
  }

  /** Reads n records into a map; on a bad record, what was read so far. */
  function ReadRecords(s: seq<byte>, n: nat, m: AccountMap): (AccountMap, bool)
    decreases n
  {
    if n == 0 then (m, true) else
    match ReadRecord(s)
    case None => (m, false)
    case Some((k, a, rest)) => ReadRecords(rest, n - 1, m[k := a])
  }

  /** What loading leaves in the database, and whether it reports success. */
  datatype LoadResult = LoadResult(accounts: AccountMap, slot: u64, ok: bool)

  ghost function Load(sha: Sha, file: seq<byte>, accounts: AccountMap, slot: u64): LoadResult {
    match ParseHeader(file)
    case None => LoadResult(accounts, slot, false)
    case Some(h) =>
      var (m, complete) := ReadRecords(file[56..], h.count, map[]);
      if complete then LoadResult(m, h.slot, MapHash(sha, m) == h.hash) else LoadResult(m, slot, false)
  }

  method WriteAll(writer: SnapshotWriter, m: AccountMap) returns (order: seq<Pubkey>)
    requires |writer.file| == 56 && writer.count == 0
    modifies writer`file, writer`count
    ensures Enumerates(order, m) && (forall k :: k in order ==> k in m)
    ensures |writer.file| >= 56 && writer.file[56..] == Records(m, order)
    ensures |order| < U64_SIZE ==> writer.count == |order|
  {
    order := Walk(m.Keys);
    EnumerationSize(m, order);
    var i := 0;
    while i < |order|
      invariant 0 <= i <= |order|
      invariant |writer.file| >= 56 && writer.file[56..] == Records(m, order[..i])
      invariant |order| < U64_SIZE ==> writer.count == i
    {
      assert order[..i + 1] == order[..i] + [order[i]];
      RecordsAppend(m, order[..i], order[i]);
      writer.WriteAccount(order[i], m[order[i]]);
      i := i + 1;
    }
    assert order[..|order|] == order;
  }

  method CreateSnapshot(sha: Sha, db: MemoryDB) returns (r: Option<seq<byte>>, ghost order: seq<Pubkey>)
    ensures r.None? <==> db.closed
    ensures r.Some? ==> Enumerates(order, db.accounts) && (forall k :: k in order ==> k in db.accounts)
    ensures r.Some? && |db.accounts| < U64_SIZE ==> r.value == SnapshotFile(sha, db.accounts, db.slot, order)
  {
    if db.closed { return None, []; }
    var hash := ComputeAccountsHash(sha, db.accounts);
    var writer := new SnapshotWriter(db.slot, hash);
    order := WriteAll(writer, db.accounts);
    EnumerationSize(db.accounts, order);
    writer.Close();
    r := Some(writer.file);
  }

  lemma EnumerationSize(m: AccountMap, order: seq<Pubkey>)
    requires Enumerates(order, m)
    ensures |order| == |m| && forall k :: k in m <==> k in order
  {
    assert |order| == |multiset(order)| == |m.Keys| == |m|;
    forall k ensures k in m <==> k in order {
      assert k in m <==> k in multiset(m.Keys);
      assert k in order <==> k in multiset(order);
    }
  }

  lemma {:induction false} RecordsAppend(m: AccountMap, order: seq<Pubkey>, k: Pubkey)
    requires k in m && forall l :: l in order ==> l in m
    ensures Records(m, order + [k]) == Records(m, order) + Record(k, m[k])
  {
    if order == [] {
      assert [k][1..] == [];
    } else {
      assert (order + [k])[1..] == order[1..] + [k];
      RecordsAppend(m, order[1..], k);
    }
  }

  /** The file for a map whose accounts were met in the given order. */
  ghost function SnapshotFile(sha: Sha, m: AccountMap, slot: u64, order: seq<Pubkey>): seq<byte>
    requires |m| < U64_SIZE && forall k :: k in order ==> k in m
  {
    HeaderBytes(Header(VERSION, slot, |m|, MapHash(sha, m))) + Records(m, order)
  }

  method LoadSnapshot(sha: Sha, db: MemoryDB, file: seq<byte>) returns (ok: bool)
    modifies db
    ensures db.closed == old(db.closed)
    ensures db.closed ==> !ok && db.accounts == old(db.accounts) && db.slot == old(db.slot)
    ensures !db.closed ==> LoadResult(db.accounts, db.slot, ok) == Load(sha, file, old(db.accounts), old(db.slot))
  {
    if db.closed { return false; }
    var parsed := ParseHeader(file);
    if parsed.None? { return false; }
    var header := parsed.value;
    var complete := FillAccounts(db, file[56..], header.count);
    if !complete { return false; }
    db.slot := header.slot;
    var computed := ComputeAccountsHash(sha, db.accounts);
    return computed == header.hash;
  }

  /** Replaces the accounts by those in the stream, up to one that cannot be read. */
  method FillAccounts(db: MemoryDB, records: seq<byte>, count: nat) returns (complete: bool)
    modifies db`accounts
    ensures (db.accounts, complete) == ReadRecords(records, count, map[])
  {
    db.accounts := map[];
    var stream, read := records, 0;
    complete := true;
    while complete && read < count
      invariant 0 <= read <= count
      invariant ReadRecords(records, count, map[])
             == if complete then ReadRecords(stream, count - read, db.accounts) else (db.accounts, false)
      decreases complete, count - read
    {
      var rec := ReadRecord(stream);
      if rec.None? {
        complete := false;
      } else {
        var (k, a, rest) := rec.value;
        db.accounts := db.accounts[k := a];
        stream, read := rest, read + 1;
      }
    }
  }

  // --------------------------------------------------------------- round trip

  lemma HeaderRoundTrip(h: Header, body: seq<byte>)
    requires h.version == VERSION
    ensures ParseHeader(HeaderBytes(h) + body) == Some(h)
  {
    var f := HeaderBytes(h) + body;
    assert f[..4] == MAGIC && f[4..8] == LE(VERSION, 4);
    assert f[8..16] == LE(h.slot, 8) && f[16..24] == LE(h.count, 8) && f[24..56] == h.hash;
    LE4(VERSION);
    LE8(h.slot);
    LE8(h.count);
  }

  /** What is read behind a size field, when size bytes of d are there. */
  lemma FramedRecord(k: Pubkey, field: seq<byte>, size: u32, d: seq<byte>, tail: seq<byte>)
    requires |field| == 4 && Read4(field) == size && size <= |d|
    ensures var a := Deserialize(d[..size]);
            ReadRecord(k + field + d + tail)
            == if size > MAX_RECORD || a.Err? then None else Some((k, a.value, d[size..] + tail))
  {
    var s := k + field + d + tail;
    assert s[..32] == k && s[32..36] == field;
    assert s[36..36 + size] == d[..size] && s[36 + size..] == d[size..] + tail;
  }

  /** A record reads back exactly when its account fits; the 32-bit size field
      never turns an account that is too large into another one. */
  lemma RecordRoundTrip(k: Pubkey, a: Account, tail: seq<byte>)
    requires |a.data| < U64_SIZE
    ensures ReadRecord(Record(k, a) + tail) == if Fits(a) then Some((k, a, tail)) else None
  {
    var n := |a.data|;
    var size := SizeField(n);
    SizeFieldValue(n);
    FramedRecord(k, LE(size, 4), size, Serialized(a), tail);
    PrefixReads(a, size);
    if Fits(a) { assert Serialized(a)[size..] + tail == tail; }
  }

  lemma SizeFieldValue(n: nat)
    ensures var size := SizeField(n);
            size <= 57 + n && Read4(LE(size, 4)) == size && (n <= MAX_DATA + 43 ==> size == 57 + n)
  {
    LE4(SizeField(n));
  }

  lemma PrefixReads(a: Account, size: nat)
    requires size <= |Serialized(a)| && |a.data| < U64_SIZE
    requires Fits(a) ==> size == |Serialized(a)|
    ensures Deserialize(Serialized(a)[..size]) == if Fits(a) then Ok(a) else Err(InvalidData)
  {
    if size == |Serialized(a)| {
      assert Serialized(a)[..size] + [] == Serialized(a) && Serialized(a) + [] == Serialized(a);
      SerializedRoundTrip(a, []);
    } else {
      TruncatedTooLarge(a, size);
    }
  }

  lemma TruncatedTooLarge(a: Account, size: nat)
    requires size <= |Serialized(a)| && MAX_DATA < |a.data| < U64_SIZE
    ensures Deserialize(Serialized(a)[..size]) == Err(InvalidData)
  {
    var d := Serialized(a)[..size];
    if size >= 57 {
      LengthField(a);
      assert d[8..16] == Serialized(a)[8..16];
      LE8(|a.data|);
    }
  }

  ghost predicate Parses(m: AccountMap, order: seq<Pubkey>)
    requires forall k :: k in order ==> k in m
  {
    forall k :: k in order ==> Fits(m[k])
  }

  lemma {:induction false} RecordsRoundTrip(m: AccountMap, order: seq<Pubkey>, before: AccountMap)
    requires forall k :: k in order ==> k in m && |m[k].data| < U64_SIZE
    ensures Parses(m, order) ==> ReadRecords(Records(m, order), |order|, before) == (Overlay(before, m, order), true)
    ensures !Parses(m, order) ==> !ReadRecords(Records(m, order), |order|, before).1
    decreases |order|
  {
    if order != [] {
      var k, rest := order[0], order[1..];
      assert order == [k] + rest;
      RecordRoundTrip(k, m[k], Records(m, rest));
      RecordsRoundTrip(m, rest, before[k := m[k]]);
      assert Parses(m, order) <==> Fits(m[k]) && Parses(m, rest);
    }
  }

  function Overlay(before: AccountMap, m: AccountMap, order: seq<Pubkey>): AccountMap
    requires forall k :: k in order ==> k in m
    decreases |order|
  {
    if order == [] then before else Overlay(before[order[0] := m[order[0]]], m, order[1..])
  }

  lemma {:induction false} OverlayIsMap(before: AccountMap, m: AccountMap, order: seq<Pubkey>)
    requires forall k :: k in order ==> k in m
    requires forall k :: k in before ==> k in m && before[k] == m[k]
    requires forall k :: k in m ==> k in before || k in order
    ensures Overlay(before, m, order) == m
    decreases |order|
  {
    if order != [] {
      assert order == [order[0]] + order[1..];
      OverlayIsMap(before[order[0] := m[order[0]]], m, order[1..]);
    } else {
      assert before.Keys == m.Keys;
    }
  }

  /** Loading the file made from a database, whatever order its map was walked in
      and whatever was in the target, succeeds exactly when every account is
      within the data limit, and then it restores map and slot. */
  lemma SnapshotRoundTrip(sha: Sha, m: AccountMap, slot: u64, order: seq<Pubkey>, old_: AccountMap, oldSlot: u64)
    requires Enumerates(order, m) && (forall k :: k in order ==> k in m) && |m| < U64_SIZE
    requires forall k :: k in m ==> |m[k].data| < U64_SIZE
    ensures var r := Load(sha, SnapshotFile(sha, m, slot, order), old_, oldSlot);
            && (r.ok <==> AllFit(m))
            && (r.ok ==> r.accounts == m && r.slot == slot)
  {
    var h := Header(VERSION, slot, |m|, MapHash(sha, m));
    LoadBody(sha, h, Records(m, order), old_, oldSlot);
    RecordsRestoreMap(m, order);
  }

  lemma LoadBody(sha: Sha, h: Header, body: seq<byte>, old_: AccountMap, oldSlot: u64)
    requires h.version == VERSION
    ensures var (m, complete) := ReadRecords(body, h.count, map[]);
            Load(sha, HeaderBytes(h) + body, old_, oldSlot)
            == if complete then LoadResult(m, h.slot, MapHash(sha, m) == h.hash) else LoadResult(m, oldSlot, false)
  {
    HeaderRoundTrip(h, body);
    assert (HeaderBytes(h) + body)[56..] == body;
  }

  lemma RecordsRestoreMap(m: AccountMap, order: seq<Pubkey>)
    requires Enumerates(order, m) && (forall k :: k in order ==> k in m)
    requires forall k :: k in m ==> |m[k].data| < U64_SIZE
    ensures var (read, complete) := ReadRecords(Records(m, order), |m|, map[]);
            (complete <==> AllFit(m)) && (complete ==> read == m)
  {
    EnumerationSize(m, order);
    RecordsRoundTrip(m, order, map[]);
    OverlayIsMap(map[], m, order);
    assert AllFit(m) <==> Parses(m, order);
  }

  /** Whatever the bytes: two files that load under one header hash hold the same
      accounts, or the break of the hash function can be computed. */
  lemma SameHashSameState(sha: Sha, f: seq<byte>, g: seq<byte>, m: AccountMap, slot: u64)
    requires Load(sha, f, m, slot).ok && Load(sha, g, m, slot).ok
    requires ParseHeader(f).value.hash == ParseHeader(g).value.hash
    ensures var a, b := Load(sha, f, m, slot).accounts, Load(sha, g, m, slot).accounts;
            a == b || IsBreak(sha, StateBreak(sha, a, AnyOrder(a.Keys), b, AnyOrder(b.Keys)))
  {
    var a, b := Load(sha, f, m, slot).accounts, Load(sha, g, m, slot).accounts;
    StateBinding(sha, a, AnyOrder(a.Keys), b, AnyOrder(b.Keys));
  }

  /** A file that loads, with the hash of some map in its header, holds that map, or
      StateBreak computes a break of the hash function. */
  lemma LoadedIsHashed(sha: Sha, f: seq<byte>, m: AccountMap, slot: u64, hashed: AccountMap)
    requires Load(sha, f, m, slot).ok && ParseHeader(f).value.hash == MapHash(sha, hashed)
    ensures var a := Load(sha, f, m, slot).accounts;
            a == hashed || IsBreak(sha, StateBreak(sha, a, AnyOrder(a.Keys), hashed, AnyOrder(hashed.Keys)))
  {
    var a := Load(sha, f, m, slot).accounts;
    StateBinding(sha, a, AnyOrder(a.Keys), hashed, AnyOrder(hashed.Keys));
  }
}
