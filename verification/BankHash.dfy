/** Bank hashes: the hash of a slot, and the chain they form
    (pkg/replayer/bankhash.go and pkg/replayer/replayer.go). */
module BankHash {
  import opened Bytes
  import opened Accounts
  import opened Merkle
  import StateHash
  import opened Store

  datatype Info = Info(parent: Hash, delta: Hash, signatures: u64, blockhash: Hash)

  /** The 104 bytes that are hashed. */
  function BankPre(i: Info): (s: seq<byte>)
    ensures |s| == 104
  {
    i.parent + i.delta + LE(i.signatures, 8) + i.blockhash
  }

  lemma BankPreInjective(i: Info, j: Info)
    requires BankPre(i) == BankPre(j)
    ensures i == j
  {
    var (s, t) := (BankPre(i), BankPre(j));
    assert s[..32] == i.parent && t[..32] == j.parent;
    assert s[32..64] == i.delta && t[32..64] == j.delta;
    assert s[64..72] == LE(i.signatures, 8) && t[64..72] == LE(j.signatures, 8);
    assert s[72..] == i.blockhash && t[72..] == j.blockhash;
    LE8(i.signatures);
    LE8(j.signatures);
  }

  method ComputeBankHash(sha: Sha, info: Info) returns (h: Hash)
    ensures h == sha(BankPre(info))
  {
    var buf := new byte[104];
    var offset := 0;
    CopyInto(buf, offset, info.parent);
    offset := offset + 32;
    CopyInto(buf, offset, info.delta);
    offset := offset + 32;
    CopyInto(buf, offset, LE(info.signatures, 8));
    offset := offset + 8;
    CopyInto(buf, offset, info.blockhash);
    assert buf[..] == buf[..104];
    h := sha(buf[..]);
  }

  // ------------------------------------------------------------------ the chain

  /** One accepted slot: what went into its bank hash, the accounts it reported as
      modified and the contents behind the delta hash. */
  datatype Entry = Entry(slot: u64, previous: Hash, info: Info, modified: set<Pubkey>,
    contents: seq<StateHash.Content>, bank: Hash)

  ghost predicate Sealed(sha: Sha, e: Entry) {
    e.bank == sha(BankPre(e.info)) && e.info.delta == StateHash.Commit(sha, 2, e.contents)
  }

  /** Each entry's parent is the bank hash before it. */
  ghost predicate Chained(sha: Sha, start: Hash, log: seq<Entry>) {
    forall i :: 0 <= i < |log| ==> Sealed(sha, log[i]) && log[i].info.parent == BankBefore(start, log, i)
  }

  function BankBefore(start: Hash, log: seq<Entry>, i: nat): Hash
    requires i <= |log|
  {
    if i == 0 then start else log[i - 1].bank
  }

  /** The break of the hash function that two different chains with one end give. */
  function ChainBreak(sha: Sha, log: seq<Entry>, other: seq<Entry>): Break
    requires |log| == |other|
  {
    if log == [] then NoBreak else
    var n := |log| - 1;
    var (e, f) := (log[n], other[n]);
    if e.info != f.info then Collision(BankPre(e.info), BankPre(f.info))
    else if e.contents != f.contents then StateHash.CommitBreak(sha, 2, e.contents, f.contents)
    else ChainBreak(sha, log[..n], other[..n])
  }

  ghost predicate SameEntries(log: seq<Entry>, other: seq<Entry>) {
    |log| == |other| && forall i :: 0 <= i < |log| ==>
      log[i].info == other[i].info && log[i].contents == other[i].contents && log[i].bank == other[i].bank
  }

  /** Two equally long chains that end in the same bank hash agree at every slot, on
      parent, delta hash, signature count and blockhash and on the accounts behind
      the delta hash, and they start from one bank hash; or ChainBreak computes a
      break of the hash function. */
  lemma {:induction false} ChainBinding(sha: Sha, start: Hash, log: seq<Entry>, otherStart: Hash, other: seq<Entry>)
    requires |log| == |other| && Chained(sha, start, log) && Chained(sha, otherStart, other)
    requires BankBefore(start, log, |log|) == BankBefore(otherStart, other, |other|)
    ensures IsBreak(sha, ChainBreak(sha, log, other)) || (SameEntries(log, other) && start == otherStart)
    decreases |log|
  {
    if log != [] {
      var n := |log| - 1;
      var (e, f) := (log[n], other[n]);
      assert Sealed(sha, e) && Sealed(sha, f);
      if e.info == f.info {
        StateHash.CommitBinds(sha, 2, e.contents, f.contents);
        if e.contents == f.contents {
          ChainPrefix(sha, start, log, n);
          ChainPrefix(sha, otherStart, other, n);
          ChainBinding(sha, start, log[..n], otherStart, other[..n]);
          if SameEntries(log[..n], other[..n]) { SameExtended(log, other, n); }
        }
      } else if BankPre(e.info) == BankPre(f.info) {
        BankPreInjective(e.info, f.info);
        assert false;
      }
    }
  }

  lemma ChainPrefix(sha: Sha, start: Hash, log: seq<Entry>, n: nat)
    requires n < |log| && Chained(sha, start, log)
    ensures Chained(sha, start, log[..n]) && BankBefore(start, log[..n], n) == log[n].info.parent
  {
    forall i | 0 <= i < n
      ensures Sealed(sha, log[..n][i]) && log[..n][i].info.parent == BankBefore(start, log[..n], i)
    {
      assert log[..n][i] == log[i];
    }
    assert log[n].info.parent == BankBefore(start, log, n);
  }

  lemma SameExtended(log: seq<Entry>, other: seq<Entry>, n: nat)
    requires |log| == |other| == n + 1 && SameEntries(log[..n], other[..n])
    requires log[n].info == other[n].info && log[n].contents == other[n].contents && log[n].bank == other[n].bank
    ensures SameEntries(log, other)
  {
    forall i | 0 <= i <= n
      ensures log[i].info == other[i].info && log[i].contents == other[i].contents && log[i].bank == other[i].bank
    {
      if i < n { assert log[..n][i] == log[i] && other[..n][i] == other[i]; }
    }
  }

  // ---------------------------------------------------- the stand-alone computer

  /** Accumulates the components of one slot's bank hash; keys may be added in any
      order, and its delta hash uses the sixteen-way tree. */
  class SlotBankHashComputer {
    const db: MemoryDB
    const parentBankHash: Hash
    var modifiedAccounts: seq<Pubkey>
    var signatureCount: u64
    var lastBlockhash: Hash

    constructor (db: MemoryDB, parent: Hash)
      ensures this.db == db && parentBankHash == parent
      ensures modifiedAccounts == [] && signatureCount == 0 && lastBlockhash == ZERO_HASH
    {
      this.db, parentBankHash := db, parent;
      modifiedAccounts, signatureCount, lastBlockhash := [], 0, ZERO_HASH;
    }

    method AddModifiedAccount(k: Pubkey)
      modifies this`modifiedAccounts
      ensures modifiedAccounts == old(modifiedAccounts) + [k]
    {
      modifiedAccounts := modifiedAccounts + [k];
    }

    method AddSignatureCount(n: u64)
      modifies this`signatureCount
      ensures signatureCount == WrapAdd(old(signatureCount), n)
    {
      signatureCount := WrapAdd(signatureCount, n);
    }

    method SetLastBlockhash(h: Hash)
      modifies this`lastBlockhash
      ensures lastBlockhash == h
    {
      lastBlockhash := h;
    }

    /** A closed database answers every key with an error, which reads as a deleted
        account. */
    method Compute(sha: Sha) returns (h: Hash)
      ensures h == ComputedHash(sha, parentBankHash, if db.closed then map[] else db.accounts, modifiedAccounts,
                                signatureCount, lastBlockhash)
    {
      var delta := StateHash.ComputeDeltaHash16(sha, if db.closed then map[] else db.accounts, modifiedAccounts);
      h := ComputeBankHash(sha, Info(parentBankHash, delta, signatureCount, lastBlockhash));
    }
  }

  function ComputedHash(sha: Sha, parent: Hash, db: AccountMap, keys: seq<Pubkey>, n: u64, b: Hash): Hash {
    var delta := StateHash.Commit(sha, 16, StateHash.Contents(db, StateHash.Sort(keys)));
    sha(BankPre(Info(parent, delta, n, b)))
  }

  /** The order in which modified accounts are reported does not matter. */
  lemma ReportOrderIrrelevant(sha: Sha, parent: Hash, db: AccountMap, keys: seq<Pubkey>, other: seq<Pubkey>, n: u64,
      b: Hash)
    requires multiset(keys) == multiset(other)
    ensures ComputedHash(sha, parent, db, keys, n, b) == ComputedHash(sha, parent, db, other, n, b)
  {
    StateHash.SortSorts(keys);
    StateHash.SortIsTheOnlySort(keys, other, StateHash.Sort(keys));
  }

  /** Equal hashes of two slots: the same parent, signature count, blockhash and
      reported contents in key order, or a break of the hash function. */
  lemma ComputedHashBinds(sha: Sha, p: Hash, db: AccountMap, ks: seq<Pubkey>, n: u64, b: Hash,
      q: Hash, db2: AccountMap, ls: seq<Pubkey>, m: u64, c: Hash)
    requires ComputedHash(sha, p, db, ks, n, b) == ComputedHash(sha, q, db2, ls, m, c)
    ensures var (x, y) := (StateHash.Contents(db, StateHash.Sort(ks)), StateHash.Contents(db2, StateHash.Sort(ls)));
      var i := Info(p, StateHash.Commit(sha, 16, x), n, b);
      var j := Info(q, StateHash.Commit(sha, 16, y), m, c);
      || (p == q && n == m && b == c && x == y)
      || IsBreak(sha, Collision(BankPre(i), BankPre(j)))
      || IsBreak(sha, StateHash.CommitBreak(sha, 16, x, y))
  {
    var (x, y) := (StateHash.Contents(db, StateHash.Sort(ks)), StateHash.Contents(db2, StateHash.Sort(ls)));
    var i := Info(p, StateHash.Commit(sha, 16, x), n, b);
    var j := Info(q, StateHash.Commit(sha, 16, y), m, c);
    if BankPre(i) == BankPre(j) {
      BankPreInjective(i, j);
      StateHash.CommitBinds(sha, 16, x, y);
    }
  }
}
