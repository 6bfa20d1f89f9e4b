/** Byte strings that must not change: what is hashed, stored and sent, position by
    position, and the numbers that are fixed in the code. */
module Layouts {
  import opened Bytes
  import opened ExecAccount
  import Accounts
  import Merkle
  import StateHash
  import BankHash
  import Store
  import Snapshot
  import BpfInput
  import VmIsa
  import Pda
  import Crds
  import Base58

  /** The piece stands at this offset. */
  predicate Stands(s: seq<byte>, at: nat, piece: seq<byte>) {
    at + |piece| <= |s| && s[at..at + |piece|] == piece
  }

  function Bool(b: bool): seq<byte> {
    if b then [1] else [0]
  }

  /** The little-endian form of a number: byte k is its k-th digit to the base 256. */
  predicate Number(s: seq<byte>, at: nat, size: nat, v: nat) {
    at + size <= |s| && forall k :: 0 <= k < size ==> s[at + k] == ByteOf(v, k)
  }

  lemma NumberIs(s: seq<byte>, at: nat, size: nat, v: nat)
    requires Stands(s, at, LE(v, size))
    ensures Number(s, at, size, v)
  {
    forall k | 0 <= k < size ensures s[at + k] == ByteOf(v, k) {
      LEBytes(v, size, k);
      assert s[at..at + size][k] == s[at + k];
    }
  }

  lemma Whole(s: seq<byte>)
    ensures Stands(s, 0, s)
  {
  }

  lemma Behind(pre: seq<byte>, s: seq<byte>, at: nat, piece: seq<byte>)
    requires Stands(s, at, piece)
    ensures Stands(pre + s, |pre| + at, piece)
  {
    assert (pre + s)[|pre| + at..|pre| + at + |piece|] == s[at..at + |piece|];
  }

  lemma Before(s: seq<byte>, tail: seq<byte>, at: nat, piece: seq<byte>)
    requires Stands(s, at, piece)
    ensures Stands(s + tail, at, piece)
  {
    assert (s + tail)[at..at + |piece|] == s[at..at + |piece|];
  }

  /** Six pieces, one behind the other. */
  lemma Pieces(a: seq<byte>, b: seq<byte>, c: seq<byte>, d: seq<byte>, e: seq<byte>, f: seq<byte>)
    ensures var s := a + b + c + d + e + f;
      && Stands(s, 0, a) && Stands(s, |a|, b) && Stands(s, |a| + |b|, c) && Stands(s, |a| + |b| + |c|, d)
      && Stands(s, |a| + |b| + |c| + |d|, e) && Stands(s, |a| + |b| + |c| + |d| + |e|, f)
  {
    Three(a, b, c);
    var s := a + b + c;
    Whole(s);
    Three(s, d, e);
    var t := s + d + e;
    Whole(f);
    Behind(t, f, 0, f);
    Before(t, f, |s|, d);
    Before(t, f, |s| + |d|, e);
    Through(s, d + e, f, 0, a);
    Through(s, d + e, f, |a|, b);
    Through(s, d + e, f, |a| + |b|, c);
    assert s + (d + e) == t;
  }

  lemma Through(s: seq<byte>, t: seq<byte>, u: seq<byte>, at: nat, piece: seq<byte>)
    requires Stands(s, at, piece)
    ensures Stands(s + t + u, at, piece)
  {
    Before(s, t, at, piece);
    Before(s + t, u, at, piece);
  }

  lemma Three(a: seq<byte>, b: seq<byte>, c: seq<byte>)
    ensures var s := a + b + c; Stands(s, 0, a) && Stands(s, |a|, b) && Stands(s, |a| + |b|, c)
  {
    Whole(a);
    Whole(b);
    Whole(c);
    Through(a, b, c, 0, a);
    Behind(a, b, 0, b);
    Before(a + b, c, |a|, b);
    Behind(a + b, c, 0, c);
  }

  // -------------------------------------------------------------------- accounts

  /** A stored account: lamports, data length, data, owner, executable flag, rent epoch. */
  lemma StoredAccount(a: Accounts.Account)
    ensures var (s, n) := (Accounts.Serialized(a), |a.data|);
      && |s| == 57 + n && Number(s, 0, 8, a.lamports) && Number(s, 8, 8, n) && Stands(s, 16, a.data)
      && Stands(s, 16 + n, a.owner) && Stands(s, 48 + n, Bool(a.executable)) && Number(s, 49 + n, 8, a.rentEpoch)
  {
    var (s, n) := (Accounts.Serialized(a), |a.data|);
    Pieces(LE(a.lamports, 8), LE(n, 8), a.data, a.owner, [Flag(a.executable)], LE(a.rentEpoch, 8));
    NumberIs(s, 0, 8, a.lamports);
    NumberIs(s, 8, 8, n);
    NumberIs(s, 49 + n, 8, a.rentEpoch);
  }

  /** A hashed account: lamports, rent epoch, data, executable flag, owner, key. */
  lemma HashedAccount(k: Pubkey, a: Accounts.Account)
    ensures var (s, n) := (Accounts.HashPre(k, a), |a.data|);
      && |s| == 81 + n && Number(s, 0, 8, a.lamports) && Number(s, 8, 8, a.rentEpoch) && Stands(s, 16, a.data)
      && Stands(s, 16 + n, Bool(a.executable)) && Stands(s, 17 + n, a.owner) && Stands(s, 49 + n, k)
  {
    var (s, n) := (Accounts.HashPre(k, a), |a.data|);
    Pieces(LE(a.lamports, 8), LE(a.rentEpoch, 8), a.data, [Flag(a.executable)], a.owner, k);
    NumberIs(s, 0, 8, a.lamports);
    NumberIs(s, 8, 8, a.rentEpoch);
  }

  // --------------------------------------------------------------------- hashing

  /** The bytes of a bank hash: parent, delta hash, signature count, blockhash. */
  lemma HashedBank(i: BankHash.Info)
    ensures var s := BankHash.BankPre(i);
      && |s| == 104 && Stands(s, 0, i.parent) && Stands(s, 32, i.delta)
      && Number(s, 64, 8, i.signatures) && Stands(s, 72, i.blockhash)
  {
    var s := BankHash.BankPre(i);
    Pieces(i.parent, i.delta, LE(i.signatures, 8), i.blockhash, [], []);
    assert s == i.parent + i.delta + LE(i.signatures, 8) + i.blockhash + [] + [];
    NumberIs(s, 64, 8, i.signatures);
  }

  /** A leaf is a hash behind a zero byte. */
  lemma HashedLeaf(h: Hash)
    ensures var s := Merkle.LeafPre(h); |s| == 33 && s[0] == 0 && s[1..] == h
  {
  }

  lemma {:induction false} FlattenAt(hs: seq<Hash>, k: nat)
    requires k < |hs|
    ensures Stands(Merkle.Flatten(hs), 32 * k, hs[k])
    decreases |hs|
  {
    var rest := Merkle.Flatten(hs[1..]);
    if k > 0 {
      FlattenAt(hs[1..], k - 1);
      assert Merkle.Flatten(hs)[32..] == rest;
      assert Merkle.Flatten(hs)[32 * k..32 * k + 32] == rest[32 * (k - 1)..32 * (k - 1) + 32];
    }
  }

  /** An inner node is the hashes of its children, missing ones zero, behind a one. */
  lemma HashedNode(level: seq<Hash>, i: nat, fan: nat, k: nat)
    requires k < fan
    ensures var s := Merkle.NodePre(level, i, fan);
      && |s| == 1 + 32 * fan && s[0] == 1
      && Stands(s, 1 + 32 * k, if i * fan + k < |level| then level[i * fan + k] else ZeroBytes(32))
  {
    var w := Merkle.Window(level, i * fan, fan);
    FlattenAt(w, k);
    var s := Merkle.NodePre(level, i, fan);
    assert w[k] == Merkle.HashAt(level, i * fan + k);
    assert s[1..] == Merkle.Flatten(w);
    assert s[1 + 32 * k..1 + 32 * k + 32] == s[1..][32 * k..32 * k + 32];
  }

  /** A level of a tree is hashed, fan by fan, into the next. */
  ghost predicate Above(sha: Sha, fan: nat, level: seq<Hash>, next: seq<Hash>)
    requires fan >= 2
  {
    && fan * (|next| - 1) < |level| <= fan * |next|
    && forall i :: 0 <= i < |next| ==> next[i] == sha(Merkle.NodePre(level, i, fan))
  }

  /** Levels from the leaves up to a single hash. */
  ghost predicate Tree(sha: Sha, fan: nat, levels: seq<seq<Hash>>)
    requires fan >= 2
  {
    && levels != [] && |levels[|levels| - 1]| == 1
    && forall n :: 0 <= n < |levels| - 1 ==> Above(sha, fan, levels[n], levels[n + 1])
  }

  lemma {:induction false} ClimbsTree(sha: Sha, fan: nat, level: seq<Hash>) returns (levels: seq<seq<Hash>>)
    requires fan >= 2 && level != []
    ensures Tree(sha, fan, levels) && levels[0] == level
    ensures levels[|levels| - 1][0] == Merkle.Climb(sha, fan, level)
    decreases |level|
  {
    if |level| == 1 {
      levels := [level];
    } else {
      var next := Merkle.NextLevel(sha, fan, level);
      NextIsAbove(sha, fan, level);
      var rest := ClimbsTree(sha, fan, next);
      levels := [level] + rest;
      forall n | 0 <= n < |levels| - 1 ensures Above(sha, fan, levels[n], levels[n + 1]) {
        if n > 0 { assert Above(sha, fan, rest[n - 1], rest[n]); }
      }
    }
  }

  lemma NextIsAbove(sha: Sha, fan: nat, level: seq<Hash>)
    requires fan >= 2 && level != []
    ensures Above(sha, fan, level, Merkle.NextLevel(sha, fan, level))
  {
    Merkle.CeilBounds(|level|, fan);
    CeilTight(|level|, fan);
  }

  lemma CeilTight(n: nat, fan: nat)
    requires fan >= 2 && n > 0
    ensures fan * (Merkle.Ceil(n, fan) - 1) < n
  {
    var (m, c) := (n + fan - 1, Merkle.Ceil(n, fan));
    assert m == c * fan + m % fan;
    assert fan * (c - 1) == c * fan - fan;
  }

  /** A root: zero over no leaves; otherwise the top of a tree whose leaves are the tagged
      hashes. */
  lemma RootExactly(sha: Sha, fan: nat, hashes: seq<Hash>) returns (levels: seq<seq<Hash>>)
    requires fan >= 2
    ensures hashes == [] ==> Merkle.MerkleRoot(sha, fan, hashes) == ZeroBytes(32)
    ensures hashes != [] ==> Tree(sha, fan, levels)
    ensures hashes != [] ==> levels[|levels| - 1][0] == Merkle.MerkleRoot(sha, fan, hashes)
    ensures hashes != [] ==> |levels[0]| == |hashes|
    ensures hashes != [] ==> forall i :: 0 <= i < |hashes| ==> levels[0][i] == sha([0] + hashes[i])
  {
    levels := [];
    if hashes != [] { levels := ClimbsTree(sha, fan, Merkle.Hashes(sha, Merkle.LeafPres(hashes))); }
  }

  /** A commitment is the root over the account hashes, zero for an account that does not
      exist. */
  lemma CommitExactly(sha: Sha, fan: nat, cs: seq<StateHash.Content>) returns (hashes: seq<Hash>)
    requires fan >= 2
    ensures |hashes| == |cs| && StateHash.Commit(sha, fan, cs) == Merkle.MerkleRoot(sha, fan, hashes)
    ensures forall i :: 0 <= i < |cs| && cs[i].Some? ==>
      hashes[i] == sha(Accounts.HashPre(cs[i].value.0, cs[i].value.1))
    ensures forall i :: 0 <= i < |cs| && cs[i].None? ==> hashes[i] == ZeroBytes(32)
  {
    hashes := StateHash.ContentHashes(sha, cs);
  }

  /** Keys are compared at the first byte in which they differ. */
  lemma {:induction false} CompareExactly(a: Pubkey, b: Pubkey, i: nat, n: nat)
    requires i <= n < 32 && a[i..n] == b[i..n] && a[n] != b[n]
    ensures StateHash.CompareFrom(a, b, i) == if a[n] < b[n] then -1 else 1
    decreases n - i
  {
    if i < n {
      assert a[i..n][0] == a[i] && b[i..n][0] == b[i];
      assert a[i + 1..n] == a[i..n][1..] && b[i + 1..n] == b[i..n][1..];
      CompareExactly(a, b, i + 1, n);
    }
  }

  // ------------------------------------------------------------ stores and files

  /** Account keys in the store are prefixed with one, metadata keys with two. */
  lemma StoreKeys(k: Pubkey)
    ensures Store.AccountKey(k) == [1] + k
    ensures Store.META_SLOT == [2] + Ascii("slot") && Store.META_COUNT == [2] + Ascii("count")
  {
    assert Ascii("slot") == ['s' as int, 'l' as int, 'o' as int, 't' as int];
    assert Ascii("count") == ['c' as int, 'o' as int, 'u' as int, 'n' as int, 't' as int];
  }

  function Ascii(s: string): (bytes: seq<byte>)
    requires forall i :: 0 <= i < |s| ==> (s[i] as int) < 128
  {
    seq(|s|, i requires 0 <= i < |s| => s[i] as int)
  }

  /** The head of a snapshot file: magic, version, slot, count, accounts hash. */
  lemma SnapshotHead(h: Snapshot.Header)
    ensures var s := Snapshot.HeaderBytes(h);
      && |s| == 56 && Stands(s, 0, Ascii("X1SN")) && Number(s, 4, 4, h.version) && Number(s, 8, 8, h.slot)
      && Number(s, 16, 8, h.count) && Stands(s, 24, h.hash)
  {
    var s := Snapshot.HeaderBytes(h);
    Pieces(Snapshot.MAGIC, LE(h.version, 4), LE(h.slot, 8), LE(h.count, 8), h.hash, []);
    assert s == Snapshot.MAGIC + LE(h.version, 4) + LE(h.slot, 8) + LE(h.count, 8) + h.hash + [];
    assert Ascii("X1SN") == ['X' as int, '1' as int, 'S' as int, 'N' as int];
    NumberIs(s, 4, 4, h.version);
    NumberIs(s, 8, 8, h.slot);
    NumberIs(s, 16, 8, h.count);
  }

  /** A record of a snapshot: key, size, stored account. */
  lemma SnapshotRecord(k: Pubkey, a: Accounts.Account)
    ensures var (s, stored) := (Snapshot.Record(k, a), Accounts.Serialized(a));
      && |s| == 36 + |stored| && Stands(s, 0, k) && Number(s, 32, 4, |stored| % 0x1_0000_0000)
      && Stands(s, 36, stored)
  {
    var (s, stored) := (Snapshot.Record(k, a), Accounts.Serialized(a));
    Pieces(k, LE(|stored| % 0x1_0000_0000, 4), stored, [], [], []);
    assert s == k + LE(|stored| % 0x1_0000_0000, 4) + stored + [] + [] + [];
    NumberIs(s, 32, 4, |stored| % 0x1_0000_0000);
  }

  // -------------------------------------------------------------------- VM input

  /** Up to a multiple of eight. */
  function Padding(n: nat): (p: nat)
    ensures p < 8
  {
    if n % 8 == 0 then 0 else 8 - n % 8
  }

  lemma PaddingIs(n: nat)
    ensures BpfInput.Pad(n) == Padding(n)
  {
  }

  /** An account in the input of a program: index, flags, four zeros, key, owner, lamports,
      data length, data, zeros up to a multiple of eight, rent epoch. */
  ghost predicate IsBlock(s: seq<byte>, i: nat, a: Acct, pad: nat) {
    var n := |a.data|;
    && |s| == 96 + n + pad
    && Stands(s, 0, [i % 256]) && Stands(s, 1, Bool(a.isSigner)) && Stands(s, 2, Bool(a.isWritable))
    && Stands(s, 3, Bool(a.executable)) && Stands(s, 4, [0, 0, 0, 0]) && Stands(s, 8, a.key)
    && Stands(s, 40, a.owner) && Number(s, 72, 8, a.lamports) && Number(s, 80, 8, n) && Stands(s, 88, a.data)
    && Stands(s, 88 + n, ZeroBytes(pad)) && Number(s, 88 + n + pad, 8, a.rentEpoch)
  }

  lemma InputBlock(i: nat, a: Acct)
    ensures IsBlock(BpfInput.Block(i, a), i, a, Padding(|a.data|))
  {
    PaddingIs(|a.data|);
    InputBlockIs(i, a, BpfInput.Pad(|a.data|), BpfInput.Head(i, a), BpfInput.Body(a));
  }

  lemma InputBlockIs(i: nat, a: Acct, pad: nat, head: seq<byte>, body: seq<byte>)
    requires pad == BpfInput.Pad(|a.data|) && head == BpfInput.Head(i, a) && body == BpfInput.Body(a)
    ensures IsBlock(head + body, i, a, pad)
  {
    InputHead(i, a, head);
    InputBody(a, body, pad);
    HeadStands(head, body, i, a);
    BodyStands(head, body, a, pad);
  }

  /** What stands in the first 72 bytes. */
  ghost predicate IsHead(s: seq<byte>, i: nat, a: Acct) {
    && Stands(s, 0, [i % 256]) && Stands(s, 1, Bool(a.isSigner)) && Stands(s, 2, Bool(a.isWritable))
    && Stands(s, 3, Bool(a.executable)) && Stands(s, 4, [0, 0, 0, 0]) && Stands(s, 8, a.key) && Stands(s, 40, a.owner)
  }

  /** What stands from an offset on. */
  ghost predicate IsBody(s: seq<byte>, at: nat, a: Acct, pad: nat) {
    var n := |a.data|;
    && Stands(s, at, LE(a.lamports, 8)) && Stands(s, at + 8, LE(n, 8)) && Stands(s, at + 16, a.data)
    && Stands(s, at + 16 + n, ZeroBytes(pad)) && Stands(s, at + 16 + n + pad, LE(a.rentEpoch, 8))
  }

  lemma HeadStands(head: seq<byte>, body: seq<byte>, i: nat, a: Acct)
    requires IsHead(head, i, a)
    ensures IsHead(head + body, i, a)
  {
    Before(head, body, 0, [i % 256]);
    Before(head, body, 1, Bool(a.isSigner));
    Before(head, body, 2, Bool(a.isWritable));
    Before(head, body, 3, Bool(a.executable));
    Before(head, body, 4, [0, 0, 0, 0]);
    Before(head, body, 8, a.key);
    Before(head, body, 40, a.owner);
  }

  lemma BodyStands(head: seq<byte>, body: seq<byte>, a: Acct, pad: nat)
    requires |head| == 72 && IsBody(body, 0, a, pad)
    ensures IsBody(head + body, 72, a, pad)
    ensures Number(head + body, 72, 8, a.lamports) && Number(head + body, 80, 8, |a.data|)
    ensures Number(head + body, 88 + |a.data| + pad, 8, a.rentEpoch)
  {
    var n := |a.data|;
    Behind(head, body, 0, LE(a.lamports, 8));
    Behind(head, body, 8, LE(n, 8));
    Behind(head, body, 16, a.data);
    Behind(head, body, 16 + n, ZeroBytes(pad));
    Behind(head, body, 16 + n + pad, LE(a.rentEpoch, 8));
    InputNumbers(head + body, a, pad);
  }

  lemma InputNumbers(s: seq<byte>, a: Acct, pad: nat)
    requires Stands(s, 72, LE(a.lamports, 8)) && Stands(s, 80, LE(|a.data|, 8))
    requires Stands(s, 88 + |a.data| + pad, LE(a.rentEpoch, 8))
    ensures Number(s, 72, 8, a.lamports) && Number(s, 80, 8, |a.data|) && Number(s, 88 + |a.data| + pad, 8, a.rentEpoch)
  {
    NumberIs(s, 72, 8, a.lamports);
    NumberIs(s, 80, 8, |a.data|);
    NumberIs(s, 88 + |a.data| + pad, 8, a.rentEpoch);
  }

  lemma InputBody(a: Acct, body: seq<byte>, pad: nat)
    requires body == BpfInput.Body(a) && pad == BpfInput.Pad(|a.data|)
    ensures IsBody(body, 0, a, pad)
  {
    var n := |a.data|;
    Pieces(LE(a.lamports, 8), LE(n, 8), a.data, ZeroBytes(pad), LE(a.rentEpoch, 8), []);
    assert body == LE(a.lamports, 8) + LE(n, 8) + a.data + ZeroBytes(pad) + LE(a.rentEpoch, 8) + [];
  }

  lemma InputHead(i: nat, a: Acct, head: seq<byte>)
    requires head == BpfInput.Head(i, a)
    ensures IsHead(head, i, a)
  {
    var flags := BpfInput.Flags(i, a);
    Three(flags, a.key, a.owner);
    assert head == flags + a.key + a.owner;
    assert Stands(head, |flags|, a.key) && Stands(head, |flags| + 32, a.owner);
    FlagsAt(i, a, flags);
    Through(flags, a.key, a.owner, 0, [i % 256]);
    Through(flags, a.key, a.owner, 1, Bool(a.isSigner));
    Through(flags, a.key, a.owner, 2, Bool(a.isWritable));
    Through(flags, a.key, a.owner, 3, Bool(a.executable));
    Through(flags, a.key, a.owner, 4, [0, 0, 0, 0]);
  }

  lemma FlagsAt(i: nat, a: Acct, flags: seq<byte>)
    requires flags == BpfInput.Flags(i, a)
    ensures Stands(flags, 0, [i % 256]) && Stands(flags, 1, Bool(a.isSigner)) && Stands(flags, 2, Bool(a.isWritable))
    ensures Stands(flags, 3, Bool(a.executable)) && Stands(flags, 4, [0, 0, 0, 0])
  {
    assert flags[0..1] == [i % 256];
    assert flags[1..2] == Bool(a.isSigner);
    assert flags[2..3] == Bool(a.isWritable);
    assert flags[3..4] == Bool(a.executable);
    assert flags[4..8] == [0, 0, 0, 0];
  }

  /** The size of the blocks of the first n accounts. */
  function Sizes(accs: seq<Acct>, n: nat): nat
    requires n <= |accs|
  {
    if n == 0 then 0 else
    var len := |accs[n - 1].data|;
    Sizes(accs, n - 1) + 96 + len + Padding(len)
  }

  lemma {:induction false} BlocksAt(i: nat, accs: seq<Acct>, n: nat)
    requires n < |accs|
    ensures Stands(BpfInput.Blocks(i, accs), Sizes(accs, n), BpfInput.Block(i + n, accs[n]))
    decreases |accs|
  {
    var (first, rest) := (BpfInput.Block(i, accs[0]), BpfInput.Blocks(i + 1, accs[1..]));
    assert BpfInput.Blocks(i, accs) == first + rest;
    if n == 0 {
      Before(first, rest, 0, first);
    } else {
      BlocksAt(i + 1, accs[1..], n - 1);
      SizesTail(accs, n);
      FirstSize(i, accs);
      Behind(first, rest, Sizes(accs[1..], n - 1), BpfInput.Block(i + n, accs[n]));
    }
  }

  lemma FirstSize(i: nat, accs: seq<Acct>)
    requires accs != []
    ensures Sizes(accs, 1) == |BpfInput.Block(i, accs[0])|
  {
    PaddingIs(|accs[0].data|);
    assert Sizes(accs, 1) == Sizes(accs, 0) + 96 + |accs[0].data| + Padding(|accs[0].data|);
  }

  lemma {:induction false} SizesTail(accs: seq<Acct>, n: nat)
    requires 0 < n <= |accs|
    ensures Sizes(accs, n) == Sizes(accs, 1) + Sizes(accs[1..], n - 1)
  {
    if n > 1 { SizesTail(accs, n - 1); }
  }

  lemma {:induction false} BlocksLength(i: nat, accs: seq<Acct>)
    ensures |BpfInput.Blocks(i, accs)| == Sizes(accs, |accs|)
    decreases |accs|
  {
    if accs != [] {
      BlocksLength(i + 1, accs[1..]);
      SizesTail(accs, |accs|);
      FirstSize(i, accs);
      assert BpfInput.Blocks(i, accs) == BpfInput.Block(i, accs[0]) + BpfInput.Blocks(i + 1, accs[1..]);
    }
  }

  /** The whole input: the number of accounts, their blocks one behind the other, */
  lemma InputBlocks(program: Pubkey, accs: seq<Acct>, data: seq<byte>, n: nat, s: seq<byte>)
    requires n < |accs| && s == BpfInput.Input(program, accs, data)
    ensures Stands(s, 8 + Sizes(accs, n), BpfInput.Block(n, accs[n]))
  {
    BlocksAt(0, accs, n);
    var tail := InputTail(program, accs, data, s);
    BlockInside(s[..8], BpfInput.Blocks(0, accs), tail, s, Sizes(accs, n), BpfInput.Block(n, accs[n]));
  }

  lemma InputTail(program: Pubkey, accs: seq<Acct>, data: seq<byte>, s: seq<byte>) returns (tail: seq<byte>)
    requires s == BpfInput.Input(program, accs, data)
    ensures |s| >= 8 && s == s[..8] + BpfInput.Blocks(0, accs) + tail
  {
    tail := LE(|data|, 8) + data + program;
    assert s == LE(|accs|, 8) + BpfInput.Blocks(0, accs) + tail;
    assert s[..8] == LE(|accs|, 8);
  }

  lemma BlockInside(pre: seq<byte>, mid: seq<byte>, tail: seq<byte>, s: seq<byte>, at: nat, piece: seq<byte>)
    requires Stands(mid, at, piece) && s == pre + mid + tail && |pre| == 8
    ensures Stands(s, 8 + at, piece)
  {
    Behind(pre, mid, at, piece);
    Before(pre + mid, tail, 8 + at, piece);
  }

  /** and then the instruction data behind its length, and the program. */
  lemma InputEnds(program: Pubkey, accs: seq<Acct>, data: seq<byte>, s: seq<byte>, end: nat)
    requires s == BpfInput.Input(program, accs, data) && end == 8 + Sizes(accs, |accs|)
    ensures |s| == end + 8 + |data| + 32
    ensures Number(s, 0, 8, |accs|)
    ensures Number(s, end, 8, |data|) && Stands(s, end + 8, data) && Stands(s, end + 8 + |data|, program)
  {
    BlocksLength(0, accs);
    InputParts(LE(|accs|, 8), BpfInput.Blocks(0, accs), LE(|data|, 8), data, program, s, end);
    NumberIs(s, 0, 8, |accs|);
    NumberIs(s, end, 8, |data|);
  }

  lemma InputParts(count: seq<byte>, blocks: seq<byte>, size: seq<byte>, data: seq<byte>, program: seq<byte>,
      s: seq<byte>, end: nat)
    requires s == count + blocks + (size + data + program) && |count| == |size| == 8 && end == 8 + |blocks|
    ensures |s| == end + 8 + |data| + |program|
    ensures Stands(s, 0, count) && Stands(s, end, size) && Stands(s, end + 8, data)
    ensures Stands(s, end + 8 + |data|, program)
  {
    Pieces(count, blocks, size, data, program, []);
    assert s == count + blocks + size + data + program + [];
  }

  // ------------------------------------------------------------ program addresses

  /** The prime is 2^255 - 19. */
  lemma PrimeIs()
    ensures Pda.P == VmIsa.Pow2(255) - 19
  {
    VmIsa.Pow2Values();
    VmIsa.Pow2Square(64, 0x1_0000_0000_0000_0000);
    VmIsa.Pow2Square(128, 0x1_0000_0000_0000_0000 * 0x1_0000_0000_0000_0000);
    assert VmIsa.Pow2(256) == 2 * VmIsa.Pow2(255);
  }

  /** The sign of x is the top bit of the last byte; without it, 255 bits are left. */
  lemma ClearSignIs(point: seq<byte>)
    requires |point| == 32
    ensures var s := Pda.ClearSign(point);
      |s| == 32 && s[..31] == point[..31] && s[31] == if point[31] < 128 then point[31] else point[31] - 128
  {
  }

  /** An address hashes the seeds one behind the other, the program and a marker. */
  lemma AddressPreimage(sha: Sha, seeds: seq<seq<byte>>, last: seq<byte>, program: seq<byte>)
    ensures Pda.Join([]) == [] && Pda.Join(seeds + [last]) == Pda.Join(seeds) + last
    ensures Pda.Derived(sha, seeds, program) == sha(Pda.Join(seeds) + program + Ascii("ProgramDerivedAddress"))
    ensures Pda.MAX_SEEDS == 16 && Pda.MAX_SEED_LEN == 32 && Pda.FIND_COST == 1500
  {
    assert (seeds + [last])[..|seeds|] == seeds;
    assert Ascii("ProgramDerivedAddress") == Pda.MARKER;
  }

  // ----------------------------------------------------------------------- codecs

  /** The digits of base 58: digits and letters without 0, O, I and l. */
  lemma Alphabet(i: nat)
    requires i < 58
    ensures Base58.Letter(i) ==
      if i < 9 then "123456789"[i]
      else if i < 17 then "ABCDEFGH"[i - 9]
      else if i < 22 then "JKLMN"[i - 17]
      else if i < 33 then "PQRSTUVWXYZ"[i - 22]
      else if i < 44 then "abcdefghijk"[i - 33]
      else "mnopqrstuvwxyz"[i - 44]
  {
    if i < 22 { UpperLetters(i); } else if i < 33 { LaterLetters(i); } else { LowerLetters(i); }
  }

  lemma UpperLetters(i: nat)
    requires i < 22
    ensures Base58.Letter(i)
      == if i < 9 then "123456789"[i] else if i < 17 then "ABCDEFGH"[i - 9] else "JKLMN"[i - 17]
  {
    match i
    case 0 => case 1 => case 2 => case 3 => case 4 => case 5 => case 6 => case 7 => case 8 =>
    case 9 => case 10 => case 11 => case 12 => case 13 => case 14 => case 15 => case 16 => case 17 =>
    case 18 => case 19 => case 20 => case 21 =>
  }

  lemma LaterLetters(i: nat)
    requires 22 <= i < 33
    ensures Base58.Letter(i) == "PQRSTUVWXYZ"[i - 22]
  {
    match i - 22
    case 0 => case 1 => case 2 => case 3 => case 4 => case 5 => case 6 => case 7 => case 8 =>
    case 9 => case 10 =>
  }

  lemma LowerLetters(i: nat)
    requires 33 <= i < 58
    ensures Base58.Letter(i) == if i < 44 then "abcdefghijk"[i - 33] else "mnopqrstuvwxyz"[i - 44]
  {
    match i - 33
    case 0 => case 1 => case 2 => case 3 => case 4 => case 5 => case 6 => case 7 => case 8 =>
    case 9 => case 10 => case 11 => case 12 => case 13 => case 14 => case 15 => case 16 => case 17 =>
    case 18 => case 19 => case 20 => case 21 => case 22 => case 23 => case 24 =>
  }

  /** A version: three half-words and two words. */
  lemma SentVersion(v: Crds.Version)
    ensures var s := Crds.VersionBytes(v);
      && |s| == 14 && Number(s, 0, 2, v.major) && Number(s, 2, 2, v.minor) && Number(s, 4, 2, v.patch)
      && Number(s, 6, 4, v.commit) && Number(s, 10, 4, v.featureSet)
  {
    var s := Crds.VersionBytes(v);
    Pieces(LE(v.major, 2), LE(v.minor, 2), LE(v.patch, 2), LE(v.commit, 4), LE(v.featureSet, 4), []);
    assert s == LE(v.major, 2) + LE(v.minor, 2) + LE(v.patch, 2) + LE(v.commit, 4) + LE(v.featureSet, 4) + [];
    NumberIs(s, 0, 2, v.major);
    NumberIs(s, 2, 2, v.minor);
    NumberIs(s, 4, 2, v.patch);
    NumberIs(s, 6, 4, v.commit);
    NumberIs(s, 10, 4, v.featureSet);
  }

  /** The four bytes of an IPv4 address, which may also stand behind ten zeros and two
      bytes of ones. */
  function V4(ip: seq<byte>): Option<seq<byte>> {
    if |ip| == 4 then Some(ip)
    else if |ip| == 16 && ip[..10] == ZeroBytes(10) && ip[10] == 0xff && ip[11] == 0xff then Some(ip[12..])
    else None
  }

  /** An address: zero if it is not set; otherwise one, the family, the IP and the port. */
  lemma SentAddress(a: Crds.SocketAddr)
    ensures var s := Crds.AddrBytes(a);
      if a.ip == [] || a.port == 0 then s == [0]
      else if V4(a.ip).Some? then s == [1, 4] + V4(a.ip).value + LE(a.port, 2)
      else if |a.ip| == 16 then s == [1, 6] + a.ip + LE(a.port, 2)
      else s == [1, 6] + LE(a.port, 2)
  {
    MappedIs(a.ip);
    assert [1] + ([4] + a.ip) == [1, 4] + a.ip && [1] + ([6] + a.ip) == [1, 6] + a.ip;
    if |a.ip| == 16 { assert [1] + ([4] + a.ip[12..]) == [1, 4] + a.ip[12..]; }
  }

  lemma MappedIs(ip: seq<byte>)
    ensures V4(ip) == Crds.To4(ip)
  {
    if |ip| == 16 {
      assert ip[..12] == ip[..10] + [ip[10], ip[11]];
      assert Crds.MAPPED == ZeroBytes(10) + [0xff, 0xff];
      if ip[..12] == Crds.MAPPED {
        assert ip[..10] == ip[..12][..10] && ip[10] == ip[..12][10] && ip[11] == ip[..12][11];
      }
    }
  }

  /** A contact information: key, wall clock, shred version, version and the ten addresses
      in their order, behind the signature and a zero byte. */
  lemma SentValue(signature: Crds.Signature, i: Crds.ContactInfo)
    ensures var (s, v) := (Crds.ValueBytes(signature, i), Crds.VersionBytes(i.version));
      && Stands(s, 0, signature) && Stands(s, 64, [0]) && Stands(s, 65, i.pubkey) && Number(s, 97, 8, i.wallClock)
      && Number(s, 105, 2, i.shredVersion) && Stands(s, 107, v)
      && s[121..] == Crds.AddrBytes(i.gossip) + Crds.AddrBytes(i.tvu) + Crds.AddrBytes(i.tvuForwards)
           + Crds.AddrBytes(i.repair) + Crds.AddrBytes(i.tpu) + Crds.AddrBytes(i.tpuForwards)
           + Crds.AddrBytes(i.tpuVote) + Crds.AddrBytes(i.rpc) + Crds.AddrBytes(i.rpcPubsub)
           + Crds.AddrBytes(i.serveRepair)
  {
    var (s, v, as_) := (Crds.ValueBytes(signature, i), Crds.VersionBytes(i.version), Crds.AddrsBytes(Crds.Addrs(i)));
    var (clock, shred) := (LE(i.wallClock, 8), LE(i.shredVersion, 2));
    assert s == signature + [0] + i.pubkey + clock + shred + v + as_;
    ValueParts(signature, [0], i.pubkey, clock, shred, v, as_, s);
    NumberIs(s, 97, 8, i.wallClock);
    NumberIs(s, 105, 2, i.shredVersion);
    TenAddresses(i.gossip, i.tvu, i.tvuForwards, i.repair, i.tpu, i.tpuForwards, i.tpuVote, i.rpc, i.rpcPubsub,
      i.serveRepair);
  }

  lemma ValueParts(a: seq<byte>, b: seq<byte>, c: seq<byte>, d: seq<byte>, e: seq<byte>, f: seq<byte>, g: seq<byte>,
      s: seq<byte>)
    requires s == a + b + c + d + e + f + g
    requires |a| == 64 && |b| == 1 && |c| == 32 && |d| == 8 && |e| == 2 && |f| == 14
    ensures Stands(s, 0, a) && Stands(s, 64, b) && Stands(s, 65, c) && Stands(s, 97, d) && Stands(s, 105, e)
    ensures Stands(s, 107, f) && s[121..] == g
  {
    var front := a + b + c + d + e + f;
    Pieces(a, b, c, d, e, f);
    Before(front, g, 0, a);
    Before(front, g, 64, b);
    Before(front, g, 65, c);
    Before(front, g, 97, d);
    Before(front, g, 105, e);
    Before(front, g, 107, f);
  }

  lemma TenAddresses(a: Crds.SocketAddr, b: Crds.SocketAddr, c: Crds.SocketAddr, d: Crds.SocketAddr,
      e: Crds.SocketAddr, f: Crds.SocketAddr, g: Crds.SocketAddr, h: Crds.SocketAddr, i: Crds.SocketAddr,
      j: Crds.SocketAddr)
    ensures Crds.AddrsBytes([a, b, c, d, e, f, g, h, i, j])
      == Crds.AddrBytes(a) + Crds.AddrBytes(b) + Crds.AddrBytes(c) + Crds.AddrBytes(d) + Crds.AddrBytes(e)
         + Crds.AddrBytes(f) + Crds.AddrBytes(g) + Crds.AddrBytes(h) + Crds.AddrBytes(i) + Crds.AddrBytes(j)
  {
    var all := Crds.AddrsBytes([a, b, c, d, e, f, g, h, i, j]);
    assert [] + all == all;
    FiveAddresses([], a, b, c, d, e, [f, g, h, i, j]);
    assert [a, b, c, d, e] + [f, g, h, i, j] == [a, b, c, d, e, f, g, h, i, j];
    FiveAddresses(Crds.AddrBytes(a) + Crds.AddrBytes(b) + Crds.AddrBytes(c) + Crds.AddrBytes(d) + Crds.AddrBytes(e),
      f, g, h, i, j, []);
    assert [f, g, h, i, j] + [] == [f, g, h, i, j] && Crds.AddrsBytes([]) == [];
    assert [] + Crds.AddrBytes(a) == Crds.AddrBytes(a);
  }

  lemma FiveAddresses(pre: seq<byte>, a: Crds.SocketAddr, b: Crds.SocketAddr, c: Crds.SocketAddr,
      d: Crds.SocketAddr, e: Crds.SocketAddr, rest: seq<Crds.SocketAddr>)
    ensures pre + Crds.AddrsBytes([a, b, c, d, e] + rest)
      == pre + Crds.AddrBytes(a) + Crds.AddrBytes(b) + Crds.AddrBytes(c) + Crds.AddrBytes(d) + Crds.AddrBytes(e)
         + Crds.AddrsBytes(rest)
  {
    TwoAddresses(pre, a, b, [c, d, e] + rest);
    assert [a, b] + ([c, d, e] + rest) == [a, b, c, d, e] + rest;
    TwoAddresses(pre + Crds.AddrBytes(a) + Crds.AddrBytes(b), c, d, [e] + rest);
    assert [c, d] + ([e] + rest) == [c, d, e] + rest;
    OneAddress(pre + Crds.AddrBytes(a) + Crds.AddrBytes(b) + Crds.AddrBytes(c) + Crds.AddrBytes(d), e, rest);
  }

  lemma TwoAddresses(pre: seq<byte>, a: Crds.SocketAddr, b: Crds.SocketAddr, rest: seq<Crds.SocketAddr>)
    ensures pre + Crds.AddrsBytes([a, b] + rest) == pre + Crds.AddrBytes(a) + Crds.AddrBytes(b) + Crds.AddrsBytes(rest)
  {
    OneAddress(pre, a, [b] + rest);
    assert [a] + ([b] + rest) == [a, b] + rest;
    OneAddress(pre + Crds.AddrBytes(a), b, rest);
  }

  lemma OneAddress(pre: seq<byte>, a: Crds.SocketAddr, rest: seq<Crds.SocketAddr>)
    ensures pre + Crds.AddrsBytes([a] + rest) == pre + Crds.AddrBytes(a) + Crds.AddrsBytes(rest)
  {
    var all := [a] + rest;
    assert all[0] == a && all[1..] == rest;
    assert Crds.AddrsBytes(all) == Crds.AddrBytes(a) + Crds.AddrsBytes(rest);
  }

  /** An IPv4 or IPv6 field of this many bytes, not marked as absent, and its port. */
  predicate HasAddress(data: seq<byte>, o: nat, family: byte, size: nat) {
    |data| >= o + 4 + size && data[o] != 0 && data[o + 1] == family
  }

  /** What any bytes read as: nothing behind an absent mark; an address of either family, the
      short one in its long form; and otherwise an error. */
  lemma ReadAddress(data: seq<byte>, o: nat)
    ensures var r := Crds.DecodeSocketAddr(data, o);
      && (r.ok <==> (|data| > o && data[o] == 0) || HasAddress(data, o, 4, 4) || HasAddress(data, o, 6, 16))
      && (|data| > o && data[o] == 0 ==> r.addr == Crds.SocketAddr([], 0) && r.offset == o + 1)
      && (!r.ok ==> r.addr == Crds.SocketAddr([], 0))
    ensures HasAddress(data, o, 4, 4) ==>
      Crds.DecodeSocketAddr(data, o) == Crds.AddrResult(
        Crds.SocketAddr(ZeroBytes(10) + [0xff, 0xff] + data[o + 2..o + 6], Read2(data[o + 6..o + 8])), o + 8, true)
    ensures HasAddress(data, o, 6, 16) ==>
      Crds.DecodeSocketAddr(data, o)
        == Crds.AddrResult(Crds.SocketAddr(data[o + 2..o + 18], Read2(data[o + 18..o + 20])), o + 20, true)
  {
    assert Crds.MAPPED == ZeroBytes(10) + [0xff, 0xff];
  }

  /** What any bytes read as: 42 are needed; the version is there if 14 more are, and is zero
      if not; addresses follow, or none is set. */
  lemma ReadInfo(data: seq<byte>)
    ensures var r := Crds.DecodeContactInfo(data);
      && (r.Ok? <==> |data| >= 42)
      && (r.Ok? ==> var (i, zero) := (r.value.0, Crds.Version(0, 0, 0, 0, 0));
            && i.pubkey == data[0..32] && i.wallClock == Read8(data[32..40]) && i.shredVersion == Read2(data[40..42])
            && (|data| < 56 ==> i.version == zero)
            && (|data| >= 56 ==> i.version == Crds.Version(Read2(data[42..44]), Read2(data[44..46]),
                  Read2(data[46..48]), Read4(data[48..52]), Read4(data[52..56])))
            && i.gossip == Crds.DecodeSocketAddr(data, if |data| >= 56 then 56 else 42).addr)
  {
  }

  // ----------------------------------------------------------------- the state hash

  /** The accounts hash is the binary root over the hashes of all accounts, in the order of
      their keys. */
  lemma StateExactly(sha: Sha, m: map<Pubkey, Accounts.Account>)
    returns (keys: seq<Pubkey>, hashes: seq<Hash>)
    ensures multiset(keys) == multiset(m.Keys) && StateHash.Sorted(keys)
    ensures |hashes| == |keys| && StateHash.MapHash(sha, m) == Merkle.MerkleRoot(sha, 2, hashes)
    ensures forall i :: 0 <= i < |keys| ==> keys[i] in m && hashes[i] == sha(Accounts.HashPre(keys[i], m[keys[i]]))
  {
    var order := StateHash.AnyOrder(m.Keys);
    keys := StateHash.Sort(order);
    StateHash.SortSorts(order);
    hashes := CommitExactly(sha, 2, StateHash.Contents(m, keys));
    forall i | 0 <= i < |keys| ensures keys[i] in m && hashes[i] == sha(Accounts.HashPre(keys[i], m[keys[i]])) {
      assert keys[i] in multiset(keys);
      assert keys[i] in multiset(m.Keys);
    }
  }
}
