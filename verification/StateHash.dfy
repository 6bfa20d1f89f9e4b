/** The accounts hash and the accounts delta hash (pkg/accounts/hash.go and
    pkg/replayer/bankhash.go): they do not depend on the order in which a map is
    walked, and they bind what they commit to. */
module StateHash {
  import opened Bytes
  import opened Merkle
  import opened Accounts

  // ------------------------------------------------------- order on pubkeys

  /** Lexicographic order from byte i on: -1, 0 or 1. */
  function CompareFrom(a: Pubkey, b: Pubkey, i: nat): (c: int)
    requires i <= 32
    ensures c in {-1, 0, 1}
    decreases 32 - i
  {
    if i == 32 then 0
    else if a[i] < b[i] then -1
    else if a[i] > b[i] then 1
    else CompareFrom(a, b, i + 1)
  }

  method ComparePubkeys(a: Pubkey, b: Pubkey) returns (c: int)
    ensures c == CompareFrom(a, b, 0)
  {
    var i := 0;
    while i < 32
      invariant 0 <= i <= 32
      invariant CompareFrom(a, b, i) == CompareFrom(a, b, 0)
    {
      if a[i] < b[i] { return -1; }
      if a[i] > b[i] { return 1; }
      i := i + 1;
    }
    return 0;
  }

  predicate Leq(a: Pubkey, b: Pubkey) {
    CompareFrom(a, b, 0) <= 0
  }

  lemma {:induction false} CompareAntisymmetric(a: Pubkey, b: Pubkey, i: nat)
    requires i <= 32
    ensures CompareFrom(a, b, i) == -CompareFrom(b, a, i)
    ensures CompareFrom(a, b, i) == 0 ==> a[i..] == b[i..]
    decreases 32 - i
  {
    if i < 32 {
      CompareAntisymmetric(a, b, i + 1);
      assert a[i..] == [a[i]] + a[i + 1..] && b[i..] == [b[i]] + b[i + 1..];
    }
  }

  lemma {:induction false} CompareTransitive(a: Pubkey, b: Pubkey, c: Pubkey, i: nat)
    requires i <= 32 && CompareFrom(a, b, i) <= 0 && CompareFrom(b, c, i) <= 0
    ensures CompareFrom(a, c, i) <= 0
    decreases 32 - i
  {
    if i < 32 && a[i] == b[i] == c[i] { CompareTransitive(a, b, c, i + 1); }
  }

  lemma LeqTotalOrder(a: Pubkey, b: Pubkey, c: Pubkey)
    ensures Leq(a, b) || Leq(b, a)
    ensures Leq(a, b) && Leq(b, a) ==> a == b
    ensures Leq(a, b) && Leq(b, c) ==> Leq(a, c)
  {
    CompareAntisymmetric(a, b, 0);
    if Leq(a, b) && Leq(b, c) { CompareTransitive(a, b, c, 0); }
    assert a[0..] == a && b[0..] == b;
  }

  // ------------------------------------------------------------------ sorting

  predicate Sorted(s: seq<Pubkey>) {
    forall i, j :: 0 <= i < j < |s| ==> Leq(s[i], s[j])
  }

  function Insert(k: Pubkey, s: seq<Pubkey>): seq<Pubkey> {
    if s == [] then [k] else if Leq(k, s[0]) then [k] + s else [s[0]] + Insert(k, s[1..])
  }

  /** What sort.Slice leaves behind: see SortIsTheOnlySort. */
  function Sort(s: seq<Pubkey>): seq<Pubkey> {
    if s == [] then [] else Insert(s[0], Sort(s[1..]))
  }

  lemma {:induction false} InsertSorted(k: Pubkey, s: seq<Pubkey>)
    requires Sorted(s)
    ensures Sorted(Insert(k, s)) && multiset(Insert(k, s)) == multiset{k} + multiset(s)
  {
    if s != [] {
      assert s == [s[0]] + s[1..];
      LeqTotalOrder(k, s[0], k);
      if Leq(k, s[0]) {
        forall j | 0 <= j < |s| ensures Leq(k, s[j]) {
          if j > 0 { CompareTransitive(k, s[0], s[j], 0); }
        }
      } else {
        InsertSorted(k, s[1..]);
        HeadFirst(s[0], k, s[1..], Insert(k, s[1..]));
      }
    }
  }

  lemma HeadFirst(head: Pubkey, k: Pubkey, rest: seq<Pubkey>, t: seq<Pubkey>)
    requires Sorted(t) && multiset(t) == multiset{k} + multiset(rest)
    requires Leq(head, k) && forall j :: 0 <= j < |rest| ==> Leq(head, rest[j])
    ensures Sorted([head] + t)
  {
    forall j | 0 <= j < |t| ensures Leq(head, t[j]) {
      assert t[j] in multiset(t);
    }
  }

  lemma {:induction false} SortSorts(s: seq<Pubkey>)
    ensures Sorted(Sort(s)) && multiset(Sort(s)) == multiset(s)
  {
    if s != [] {
      SortSorts(s[1..]);
      InsertSorted(s[0], Sort(s[1..]));
      assert s == [s[0]] + s[1..];
    }
  }

  lemma HeadIsLeast(s: seq<Pubkey>, x: Pubkey)
    requires Sorted(s) && x in multiset(s)
    ensures Leq(s[0], x)
  {
    LeqTotalOrder(s[0], s[0], s[0]);
    var i :| 0 <= i < |s| && s[i] == x;
  }

  lemma SameHead(a: seq<Pubkey>, b: seq<Pubkey>)
    requires Sorted(a) && Sorted(b) && multiset(a) == multiset(b) && a != [] && b != []
    ensures a[0] == b[0]
  {
    assert a[0] in multiset(b) && b[0] in multiset(a);
    HeadIsLeast(a, b[0]);
    HeadIsLeast(b, a[0]);
    LeqTotalOrder(a[0], b[0], a[0]);
  }

  lemma TailMultiset(s: seq<Pubkey>)
    requires s != []
    ensures multiset(s[1..]) == multiset(s) - multiset{s[0]}
  {
    assert s == [s[0]] + s[1..];
  }

  lemma {:induction false} SortedUnique(a: seq<Pubkey>, b: seq<Pubkey>)
    requires Sorted(a) && Sorted(b) && multiset(a) == multiset(b)
    ensures a == b
  {
    assert |a| == |multiset(a)| == |multiset(b)| == |b|;
    if a != [] {
      SameHead(a, b);
      TailMultiset(a);
      TailMultiset(b);
      SortedUnique(a[1..], b[1..]);
      assert a == [a[0]] + a[1..] && b == [b[0]] + b[1..];
    }
  }

  /** Any sorted rearrangement of any enumeration of the same keys is Sort's. */
  lemma SortIsTheOnlySort(s: seq<Pubkey>, t: seq<Pubkey>, u: seq<Pubkey>)
    requires multiset(s) == multiset(t) == multiset(u) && Sorted(u)
    ensures Sort(s) == Sort(t) == u
  {
    SortSorts(s);
    SortSorts(t);
    SortedUnique(Sort(s), u);
    SortedUnique(Sort(t), u);
  }

  // ------------------------------------------------------------- commitments

  /** One committed position: a live account, or None for a deleted one. */
  type Content = Option<(Pubkey, Account)>

  function Contents(m: map<Pubkey, Account>, keys: seq<Pubkey>): (c: seq<Content>)
    ensures |c| == |keys|
  {
    seq(|keys|, i requires 0 <= i < |keys| => if keys[i] in m then Some((keys[i], m[keys[i]])) else None)
  }

  function ContentHash(sha: Sha, c: Content): Hash {
    match c
    case None => ZERO_HASH
    case Some((k, a)) => sha(HashPre(k, a))
  }

  function ContentHashes(sha: Sha, cs: seq<Content>): (hs: seq<Hash>)
    ensures |hs| == |cs|
  {
    seq(|cs|, i requires 0 <= i < |cs| => ContentHash(sha, cs[i]))
  }

  function Commit(sha: Sha, fan: nat, cs: seq<Content>): Hash
    requires fan >= 2
  {
    MerkleRoot(sha, fan, ContentHashes(sha, cs))
  }

  function ContentBreak(c: Content, d: Content): Break {
    match (c, d)
    case (Some((k, a)), Some((l, b))) => Collision(HashPre(k, a), HashPre(l, b))
    case (Some((k, a)), None) => ZeroPreimage(HashPre(k, a))
    case (None, Some((l, b))) => ZeroPreimage(HashPre(l, b))
    case (None, None) => NoBreak
  }

  function CommitBreak(sha: Sha, fan: nat, cs: seq<Content>, ds: seq<Content>): Break
    requires fan >= 2
  {
    var xs, ys := ContentHashes(sha, cs), ContentHashes(sha, ds);
    if xs != ys then RootBreak(sha, fan, xs, ys) else FirstContentBreak(cs, ds)
  }

  function FirstContentBreak(cs: seq<Content>, ds: seq<Content>): Break {
    if cs == [] || ds == [] then NoBreak
    else if cs[0] != ds[0] then ContentBreak(cs[0], ds[0])
    else FirstContentBreak(cs[1..], ds[1..])
  }

  lemma {:induction false} FirstContentBreakFound(sha: Sha, cs: seq<Content>, ds: seq<Content>)
    requires |cs| == |ds| && cs != ds
    requires forall i :: 0 <= i < |cs| ==> ContentHash(sha, cs[i]) == ContentHash(sha, ds[i])
    ensures IsBreak(sha, FirstContentBreak(cs, ds))
  {
    if cs[0] != ds[0] {
      if cs[0].Some? && ds[0].Some? {
        var ((k, a), (l, b)) := (cs[0].value, ds[0].value);
        if HashPre(k, a) == HashPre(l, b) { HashPreInjective(k, a, l, b); }
      }
    } else {
      assert cs == [cs[0]] + cs[1..] && ds == [ds[0]] + ds[1..];
      FirstContentBreakFound(sha, cs[1..], ds[1..]);
    }
  }

  /** One commitment for two lists of contents: the lists are the same, or
      CommitBreak computes a collision or a preimage of the zero hash. */
  lemma CommitBinds(sha: Sha, fan: nat, cs: seq<Content>, ds: seq<Content>)
    requires fan >= 2 && Commit(sha, fan, cs) == Commit(sha, fan, ds)
    ensures cs == ds || IsBreak(sha, CommitBreak(sha, fan, cs, ds))
  {
    var xs, ys := ContentHashes(sha, cs), ContentHashes(sha, ds);
    RootBinds(sha, fan, xs, ys);
    if xs == ys && cs != ds {
      forall i | 0 <= i < |cs| ensures ContentHash(sha, cs[i]) == ContentHash(sha, ds[i]) {
        assert xs[i] == ys[i];
      }
      FirstContentBreakFound(sha, cs, ds);
    }
  }

  // -------------------------------------------------------- the accounts hash

  ghost predicate Enumerates(order: seq<Pubkey>, m: map<Pubkey, Account>) {
    multiset(order) == multiset(m.Keys)
  }

  /** The accounts hash of a map whose keys were met in the given order. */
  function AccountsHash(sha: Sha, m: map<Pubkey, Account>, order: seq<Pubkey>): Hash {
    Commit(sha, 2, Contents(m, Sort(order)))
  }

  lemma OrderIrrelevant(sha: Sha, m: map<Pubkey, Account>, order: seq<Pubkey>, other: seq<Pubkey>)
    requires Enumerates(order, m) && Enumerates(other, m)
    ensures AccountsHash(sha, m, order) == AccountsHash(sha, m, other)
  {
    SortSorts(other);
    SortIsTheOnlySort(order, other, Sort(other));
  }

  function StateBreak(sha: Sha, m: map<Pubkey, Account>, o: seq<Pubkey>, n: map<Pubkey, Account>,
      p: seq<Pubkey>): Break {
    CommitBreak(sha, 2, Contents(m, Sort(o)), Contents(n, Sort(p)))
  }

  lemma EnumerationMembers(m: map<Pubkey, Account>, o: seq<Pubkey>, k: Pubkey)
    requires Enumerates(o, m)
    ensures k in m <==> k in Sort(o)
  {
    SortSorts(o);
    assert k in m <==> k in multiset(m.Keys);
    assert k in Sort(o) <==> k in multiset(Sort(o));
  }

  /** Two account maps of any size, walked in any order, with one accounts hash
      are the same map, or StateBreak computes a break of the hash function. */
  lemma StateBinding(sha: Sha, m: map<Pubkey, Account>, o: seq<Pubkey>, n: map<Pubkey, Account>, p: seq<Pubkey>)
    requires Enumerates(o, m) && Enumerates(p, n)
    requires AccountsHash(sha, m, o) == AccountsHash(sha, n, p)
    ensures m == n || IsBreak(sha, StateBreak(sha, m, o, n, p))
  {
    var cs, ds := Contents(m, Sort(o)), Contents(n, Sort(p));
    CommitBinds(sha, 2, cs, ds);
    if cs == ds {
      SubMap(m, o, n, p);
      SubMap(n, p, m, o);
      assert m.Keys == n.Keys;
    }
  }

  lemma SubMap(m: map<Pubkey, Account>, o: seq<Pubkey>, n: map<Pubkey, Account>, p: seq<Pubkey>)
    requires Enumerates(o, m) && Enumerates(p, n) && Contents(m, Sort(o)) == Contents(n, Sort(p))
    ensures forall k :: k in m ==> k in n && m[k] == n[k]
  {
    forall k | k in m ensures k in n && m[k] == n[k] {
      EnumerationMembers(m, o, k);
      var i :| 0 <= i < |Sort(o)| && Sort(o)[i] == k;
      assert Contents(m, Sort(o))[i] == Contents(n, Sort(p))[i];
    }
  }

  method HashesInOrder(sha: Sha, db: map<Pubkey, Account>, keys: seq<Pubkey>) returns (hashes: seq<Hash>)
    ensures hashes == ContentHashes(sha, Contents(db, keys))
  {
    hashes := [];
    var i := 0;
    while i < |keys|
      invariant 0 <= i <= |keys| && |hashes| == i
      invariant forall j :: 0 <= j < i ==> hashes[j] == ContentHash(sha, Contents(db, keys)[j])
    {
      if keys[i] in db {
        var h := ComputeAccountHash(sha, keys[i], db[keys[i]]);
        hashes := hashes + [h];
      } else {
        hashes := hashes + [ZERO_HASH];
      }
      i := i + 1;
    }
  }

  /** Some order in which a map's keys can be met. */
  ghost function AnyOrder(keys: set<Pubkey>): (order: seq<Pubkey>)
    ensures multiset(order) == multiset(keys)
  {
    if keys == {} then [] else
    var k :| k in keys;
    assert keys == (keys - {k}) + {k};
    [k] + AnyOrder(keys - {k})
  }

  /** The accounts hash of a map, whatever the order (see OrderIrrelevant). */
  ghost function MapHash(sha: Sha, m: map<Pubkey, Account>): Hash {
    AccountsHash(sha, m, AnyOrder(m.Keys))
  }

  /** The walk over a Go map: each key once, in an order that nothing fixes. */
  method Walk(keys: set<Pubkey>) returns (walked: seq<Pubkey>)
    ensures multiset(walked) == multiset(keys)
  {
    var remaining := keys;
    walked := [];
    while remaining != {}
      invariant remaining <= keys
      invariant multiset(walked) == multiset(keys - remaining)
      decreases remaining
    {
      var k :| k in remaining;
      assert keys - (remaining - {k}) == (keys - remaining) + {k};
      walked, remaining := walked + [k], remaining - {k};
    }
    assert keys - {} == keys;
  }

  method ComputeAccountsHash(sha: Sha, m: map<Pubkey, Account>) returns (h: Hash)
    ensures h == MapHash(sha, m)
  {
    var walked := Walk(m.Keys);
    var hashes := HashesInOrder(sha, m, Sort(walked));
    h := ComputeMerkleRoot(sha, hashes);
    OrderIrrelevant(sha, m, walked, AnyOrder(m.Keys));
  }

  // ----------------------------------------------------------- the delta hash

  /** The delta hash of the keys touched in a slot, against the database after it. */
  function DeltaHash(sha: Sha, db: map<Pubkey, Account>, keys: seq<Pubkey>): Hash {
    Commit(sha, 2, Contents(db, keys))
  }

  method ComputeDeltaHash(sha: Sha, db: map<Pubkey, Account>, modified: seq<Pubkey>) returns (h: Hash)
    ensures h == DeltaHash(sha, db, modified)
  {
    if |modified| == 0 {
      return ZERO_HASH;
    }
    var hashes := HashesInOrder(sha, db, modified);
    h := ComputeMerkleRoot(sha, hashes);
  }

  /** The delta hasher of pkg/replayer/bankhash.go sorts first and uses fanout 16. */
  method ComputeDeltaHash16(sha: Sha, db: map<Pubkey, Account>, modified: seq<Pubkey>) returns (h: Hash)
    ensures h == Commit(sha, 16, Contents(db, Sort(modified)))
  {
    if |modified| == 0 {
      return ZERO_HASH;
    }
    var hashes := HashesInOrder(sha, db, Sort(modified));
    h := ComputeMerkleRoot16ary(sha, hashes);
  }

  /** Equal delta hashes name the same keys exactly when the same keys were
      deleted at the same positions: a deletion is committed to without its key. */
  lemma DeltaKeysBound(sha: Sha, m: map<Pubkey, Account>, ks: seq<Pubkey>, n: map<Pubkey, Account>, ls: seq<Pubkey>)
    requires DeltaHash(sha, m, ks) == DeltaHash(sha, n, ls)
    ensures || IsBreak(sha, CommitBreak(sha, 2, Contents(m, ks), Contents(n, ls)))
            || (&& Contents(m, ks) == Contents(n, ls)
                && (ks == ls <==> forall i :: 0 <= i < |ks| && i < |ls| && ks[i] !in m ==> ks[i] == ls[i]))
  {
    CommitBinds(sha, 2, Contents(m, ks), Contents(n, ls));
    if Contents(m, ks) == Contents(n, ls) {
      if forall i :: 0 <= i < |ks| && i < |ls| && ks[i] !in m ==> ks[i] == ls[i] {
        forall i | 0 <= i < |ks| ensures ks[i] == ls[i] {
          assert Contents(m, ks)[i] == Contents(n, ls)[i];
        }
      }
    }
  }

  /** Deleting one account or another from the same database: one delta hash. */
  lemma DeletedKeyUnbound(sha: Sha)
    ensures exists k: Pubkey, l: Pubkey :: k != l && DeltaHash(sha, map[], [k]) == DeltaHash(sha, map[], [l])
  {
    var k: Pubkey, l: Pubkey := ZERO_HASH, [1] + ZeroBytes(31);
    assert k[0] != l[0];
    assert Contents(map[], [k]) == Contents(map[], [l]);
    assert DeltaHash(sha, map[], [k]) == DeltaHash(sha, map[], [l]);
  }
}
