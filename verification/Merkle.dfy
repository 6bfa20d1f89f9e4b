/** The Merkle trees over account hashes: the binary one of pkg/accounts/hash.go
    and the 16-ary one of pkg/replayer/bankhash.go, specified once for any fanout,
    and the proof that a root binds the whole list of leaves. */
module Merkle {
  import opened Bytes

  /** Evidence against the hash function, in a form that can be checked. */
  datatype Break = NoBreak | Collision(x: seq<byte>, y: seq<byte>) | ZeroPreimage(x: seq<byte>)

  predicate IsBreak(sha: Sha, b: Break) {
    match b
    case NoBreak => false
    case Collision(x, y) => x != y && sha(x) == sha(y)
    case ZeroPreimage(x) => sha(x) == ZERO_HASH
  }

  // ---------------------------------------------------------------- the tree

  function LeafPre(h: Hash): seq<byte> {
    [0] + h
  }

  function HashAt(level: seq<Hash>, i: nat): Hash {
    if i < |level| then level[i] else ZERO_HASH
  }

  function Flatten(hs: seq<Hash>): (s: seq<byte>)
    ensures |s| == 32 * |hs|
  {
    if hs == [] then [] else hs[0] + Flatten(hs[1..])
  }

  /** The n hashes of a level from index start on, padded with the zero hash. */
  function Window(level: seq<Hash>, start: nat, n: nat): (w: seq<Hash>)
    ensures |w| == n
  {
    seq<Hash>(n, k requires 0 <= k => HashAt(level, start + k))
  }

  function NodePre(level: seq<Hash>, i: nat, fan: nat): (s: seq<byte>)
    ensures |s| == 1 + 32 * fan
  {
    [1] + Flatten(Window(level, i * fan, fan))
  }

  function Ceil(n: nat, fan: nat): (c: nat)
    requires fan >= 2
    ensures n >= 1 ==> 1 <= c
    ensures n >= 2 ==> c < n
    ensures n <= c * fan
  {
    CeilBounds(n, fan);
    (n + fan - 1) / fan
  }

  lemma CeilBounds(n: nat, fan: nat)
    requires fan >= 2
    ensures var c := (n + fan - 1) / fan; 0 <= c && (n >= 1 ==> 1 <= c) && (n >= 2 ==> c < n) && n <= c * fan
  {
    var m := n + fan - 1;
    var c := m / fan;
    assert m == c * fan + m % fan && 0 <= m % fan < fan;
    if n >= 1 {
      if c <= 0 { MulMono(c, 0, fan); }
    }
    assert n * fan == fan * (n - 1) + fan;
    if n >= 2 {
      if c >= n {
        MulMono(n, c, fan);
        MulMono(2, fan, n - 1);
      }
    }
  }

  function NextPres(level: seq<Hash>, fan: nat): (pres: seq<seq<byte>>)
    requires fan >= 2
    ensures |pres| == Ceil(|level|, fan)
  {
    seq(Ceil(|level|, fan), i requires 0 <= i => NodePre(level, i, fan))
  }

  function LeafPres(hashes: seq<Hash>): (pres: seq<seq<byte>>)
    ensures |pres| == |hashes|
  {
    seq(|hashes|, i requires 0 <= i < |hashes| => LeafPre(hashes[i]))
  }

  function Hashes(sha: Sha, pres: seq<seq<byte>>): (hs: seq<Hash>)
    ensures |hs| == |pres|
  {
    seq(|pres|, i requires 0 <= i < |pres| => sha(pres[i]))
  }

  function NextLevel(sha: Sha, fan: nat, level: seq<Hash>): seq<Hash>
    requires fan >= 2
  {
    Hashes(sha, NextPres(level, fan))
  }

  /** The root above a non-empty level. */
  function Climb(sha: Sha, fan: nat, level: seq<Hash>): Hash
    requires fan >= 2 && level != []
    decreases |level|
  {
    if |level| == 1 then level[0] else Climb(sha, fan, NextLevel(sha, fan, level))
  }

  function MerkleRoot(sha: Sha, fan: nat, hashes: seq<Hash>): Hash
    requires fan >= 2
  {
    if hashes == [] then ZERO_HASH else Climb(sha, fan, Hashes(sha, LeafPres(hashes)))
  }

  // ------------------------------------------------- extracting a hash break

  /** The level of preimages above a level given by its own preimages. */
  function Up(sha: Sha, fan: nat, pres: seq<seq<byte>>): (up: seq<seq<byte>>)
    requires fan >= 2
    ensures |up| == Ceil(|pres|, fan)
  {
    NextPres(Hashes(sha, pres), fan)
  }

  function Height(fan: nat, n: nat): nat
    requires fan >= 2
  {
    if n <= 1 then 0 else 1 + Height(fan, Ceil(n, fan))
  }

  function TopPre(sha: Sha, fan: nat, pres: seq<seq<byte>>): seq<byte>
    requires fan >= 2 && pres != []
    decreases |pres|
  {
    if |pres| == 1 then pres[0] else TopPre(sha, fan, Up(sha, fan, pres))
  }

  /** The first place where two levels of preimages differ. */
  function FirstDifference(p: seq<seq<byte>>, q: seq<seq<byte>>): Break {
    if p == [] then if q == [] then NoBreak else ZeroPreimage(q[0])
    else if q == [] then ZeroPreimage(p[0])
    else if p[0] != q[0] then Collision(p[0], q[0])
    else FirstDifference(p[1..], q[1..])
  }

  /** Climbs both trees until they have the same height, then until the levels
      above agree. */
  function TreeBreak(sha: Sha, fan: nat, p: seq<seq<byte>>, q: seq<seq<byte>>): Break
    requires fan >= 2 && p != [] && q != []
    decreases |p| + |q|
  {
    var hp, hq := Height(fan, |p|), Height(fan, |q|);
    if hp < hq then TreeBreak(sha, fan, p, Up(sha, fan, q))
    else if hq < hp then TreeBreak(sha, fan, Up(sha, fan, p), q)
    else if hp == 0 then Collision(p[0], q[0])
    else if Up(sha, fan, p) != Up(sha, fan, q) then TreeBreak(sha, fan, Up(sha, fan, p), Up(sha, fan, q))
    else FirstDifference(p, q)
  }

  function RootBreak(sha: Sha, fan: nat, xs: seq<Hash>, ys: seq<Hash>): Break
    requires fan >= 2
  {
    if xs == [] then if ys == [] then NoBreak else ZeroPreimage(TopPre(sha, fan, LeafPres(ys)))
    else if ys == [] then ZeroPreimage(TopPre(sha, fan, LeafPres(xs)))
    else TreeBreak(sha, fan, LeafPres(xs), LeafPres(ys))
  }

  // ------------------------------------------------------------ the argument

  lemma {:induction false} TopPreHash(sha: Sha, fan: nat, pres: seq<seq<byte>>)
    requires fan >= 2 && pres != []
    ensures sha(TopPre(sha, fan, pres)) == Climb(sha, fan, Hashes(sha, pres))
    decreases |pres|
  {
    if |pres| > 1 { TopPreHash(sha, fan, Up(sha, fan, pres)); }
  }

  lemma {:induction false} FlattenInjective(a: seq<Hash>, b: seq<Hash>)
    requires |a| == |b| && Flatten(a) == Flatten(b)
    ensures a == b
  {
    if a != [] {
      assert Flatten(a)[..32] == a[0] && Flatten(b)[..32] == b[0];
      assert Flatten(a)[32..] == Flatten(a[1..]) && Flatten(b)[32..] == Flatten(b[1..]);
      FlattenInjective(a[1..], b[1..]);
      assert a == [a[0]] + a[1..] && b == [b[0]] + b[1..];
    }
  }

  lemma DivBounds(j: nat, fan: nat)
    requires fan >= 2
    ensures 0 <= j / fan && j / fan * fan <= j < j / fan * fan + fan
  {
    assert j == j / fan * fan + j % fan;
  }

  lemma ParentInRange(n: nat, j: nat, i: nat, fan: nat)
    requires fan >= 2 && j < n && i * fan <= j
    ensures i < Ceil(n, fan)
  {
    CeilBounds(n, fan);
    if i >= Ceil(n, fan) { MulMono(Ceil(n, fan), i, fan); }
  }

  /** Levels with the same parents agree at every padded position. */
  lemma SameParents(a: seq<Hash>, b: seq<Hash>, fan: nat, j: nat)
    requires fan >= 2
    requires NextPres(a, fan) == NextPres(b, fan)
    requires j < |a| || j < |b|
    ensures HashAt(a, j) == HashAt(b, j)
  {
    var i := j / fan;
    DivBounds(j, fan);
    if j < |a| { ParentInRange(|a|, j, i, fan); } else { ParentInRange(|b|, j, i, fan); }
    assert NextPres(a, fan)[i] == NodePre(a, i, fan);
    assert NextPres(b, fan)[i] == NodePre(b, i, fan);
    SameNode(a, b, i, fan, j);
  }

  lemma SameNode(a: seq<Hash>, b: seq<Hash>, i: nat, fan: nat, j: nat)
    requires NodePre(a, i, fan) == NodePre(b, i, fan)
    requires i * fan <= j < i * fan + fan
    ensures HashAt(a, j) == HashAt(b, j)
  {
    var wa, wb := Window(a, i * fan, fan), Window(b, i * fan, fan);
    assert NodePre(a, i, fan)[1..] == Flatten(wa) && NodePre(b, i, fan)[1..] == Flatten(wb);
    FlattenInjective(wa, wb);
    assert wa[j - i * fan] == HashAt(a, j) && wb[j - i * fan] == HashAt(b, j);
  }

  lemma {:induction false} FirstDifferenceBreaks(sha: Sha, p: seq<seq<byte>>, q: seq<seq<byte>>)
    requires p != q
    requires forall j: nat :: j < |p| || j < |q| ==> HashAt(Hashes(sha, p), j) == HashAt(Hashes(sha, q), j)
    ensures IsBreak(sha, FirstDifference(p, q))
  {
    assert HashAt(Hashes(sha, p), 0) == HashAt(Hashes(sha, q), 0);
    if p != [] && q != [] && p[0] == q[0] {
      assert p == [p[0]] + p[1..] && q == [q[0]] + q[1..];
      forall j: nat | j < |p[1..]| || j < |q[1..]|
        ensures HashAt(Hashes(sha, p[1..]), j) == HashAt(Hashes(sha, q[1..]), j)
      {
        assert HashAt(Hashes(sha, p), j + 1) == HashAt(Hashes(sha, q), j + 1);
      }
      FirstDifferenceBreaks(sha, p[1..], q[1..]);
    }
  }

  predicate AllLeaves(p: seq<seq<byte>>) {
    forall i :: 0 <= i < |p| ==> |p[i]| == 33
  }

  /** A leaf is hashed from 33 bytes and an inner node from more, so trees of
      different heights cannot share a root without a break. */
  lemma {:induction false} TreeBreakFound(sha: Sha, fan: nat, p: seq<seq<byte>>, q: seq<seq<byte>>)
    requires fan >= 2 && p != [] && q != []
    requires Climb(sha, fan, Hashes(sha, p)) == Climb(sha, fan, Hashes(sha, q))
    requires Height(fan, |p|) == Height(fan, |q|) ==> p != q
    requires Height(fan, |p|) < Height(fan, |q|) ==> AllLeaves(p)
    requires Height(fan, |q|) < Height(fan, |p|) ==> AllLeaves(q)
    ensures IsBreak(sha, TreeBreak(sha, fan, p, q))
    decreases |p| + |q|
  {
    var hp, hq := Height(fan, |p|), Height(fan, |q|);
    var up, uq := Up(sha, fan, p), Up(sha, fan, q);
    if hp < hq {
      assert |p[0]| == 33 && |uq[0]| == 1 + 32 * fan;
      TreeBreakFound(sha, fan, p, uq);
    } else if hq < hp {
      assert |q[0]| == 33 && |up[0]| == 1 + 32 * fan;
      TreeBreakFound(sha, fan, up, q);
    } else if hp == 0 {
      assert p == [p[0]] && q == [q[0]];
    } else if up != uq {
      TreeBreakFound(sha, fan, up, uq);
    } else {
      forall j: nat | j < |p| || j < |q|
        ensures HashAt(Hashes(sha, p), j) == HashAt(Hashes(sha, q), j)
      {
        SameParents(Hashes(sha, p), Hashes(sha, q), fan, j);
      }
      FirstDifferenceBreaks(sha, p, q);
    }
  }

  /** Two lists of hashes of any lengths with one root are the same list, or
      RootBreak computes a collision or a preimage of the zero hash. */
  lemma RootBinds(sha: Sha, fan: nat, xs: seq<Hash>, ys: seq<Hash>)
    requires fan >= 2
    requires MerkleRoot(sha, fan, xs) == MerkleRoot(sha, fan, ys)
    ensures xs == ys || IsBreak(sha, RootBreak(sha, fan, xs, ys))
  {
    if xs == [] || ys == [] {
      if xs != [] { TopPreHash(sha, fan, LeafPres(xs)); }
      if ys != [] { TopPreHash(sha, fan, LeafPres(ys)); }
    } else if xs != ys {
      var p, q := LeafPres(xs), LeafPres(ys);
      if p == q {
        forall i | 0 <= i < |xs| ensures xs[i] == ys[i] {
          assert p[i][1..] == xs[i] && q[i][1..] == ys[i];
        }
        assert false;
      }
      TreeBreakFound(sha, fan, p, q);
    }
  }

  // ------------------------------------------------- the code's own tree walk

  method ComputeLeafHash(sha: Sha, data: Hash) returns (h: Hash)
    ensures h == sha(LeafPre(data))
  {
    var buf := new byte[1 + 32];
    buf[0] := 0x00;
    CopyInto(buf, 1, data);
    assert buf[..] == buf[..33] && buf[..1] == [0];
    h := sha(buf[..]);
  }

  method ComputeNodeHash(sha: Sha, left: Hash, right: Hash) returns (h: Hash)
    ensures h == sha([1] + left + right)
  {
    var buf := new byte[1 + 32 + 32];
    buf[0] := 0x01;
    assert buf[..1] == [1];
    CopyInto(buf, 1, left);
    CopyInto(buf, 33, right);
    assert buf[..] == buf[..65];
    h := sha(buf[..]);
  }

  lemma BinaryNode(level: seq<Hash>, k: nat)
    ensures NodePre(level, k, 2) == [1] + HashAt(level, 2 * k) + HashAt(level, 2 * k + 1)
  {
    var left, right := HashAt(level, 2 * k), HashAt(level, 2 * k + 1);
    assert Window(level, k * 2, 2) == [left, right];
    assert [left, right][1..] == [right] && [right][1..] == [];
    assert Flatten([right]) == right;
  }

  method ComputeLeaves(sha: Sha, hashes: seq<Hash>) returns (level: seq<Hash>)
    ensures level == Hashes(sha, LeafPres(hashes))
  {
    var leaves := new Hash[|hashes|](_ => ZERO_HASH);
    var i := 0;
    while i < |hashes|
      invariant 0 <= i <= |hashes|
      invariant forall k :: 0 <= k < i ==> leaves[k] == sha(LeafPre(hashes[k]))
    {
      leaves[i] := ComputeLeafHash(sha, hashes[i]);
      i := i + 1;
    }
    level := leaves[..];
  }

  method BinaryLevel(sha: Sha, level: seq<Hash>) returns (next: seq<Hash>)
    ensures next == NextLevel(sha, 2, level)
  {
    var nextLevel := new Hash[(|level| + 1) / 2](_ => ZERO_HASH);
    var i := 0;
    while i < |level|
      invariant 0 <= i <= |level| + 1 && i % 2 == 0
      invariant forall k :: 0 <= k < i / 2 ==> nextLevel[k] == sha(NodePre(level, k, 2))
    {
      var left := level[i];
      var right := ZERO_HASH;
      if i + 1 < |level| {
        right := level[i + 1];
      }
      BinaryNode(level, i / 2);
      nextLevel[i / 2] := ComputeNodeHash(sha, left, right);
      i := i + 2;
    }
    next := nextLevel[..];
  }

  /** The binary tree of the accounts hash. */
  method ComputeMerkleRoot(sha: Sha, hashes: seq<Hash>) returns (root: Hash)
    ensures root == MerkleRoot(sha, 2, hashes)
  {
    if |hashes| == 0 {
      return ZERO_HASH;
    }
    if |hashes| == 1 {
      root := ComputeLeafHash(sha, hashes[0]);
      assert [root] == Hashes(sha, LeafPres(hashes));
      return;
    }
    var level := ComputeLeaves(sha, hashes);
    while |level| > 1
      invariant level != []
      invariant Climb(sha, 2, level) == MerkleRoot(sha, 2, hashes)
      decreases |level|
    {
      level := BinaryLevel(sha, level);
    }
    root := level[0];
  }

  lemma {:induction false} FlattenAppend(hs: seq<Hash>, h: Hash)
    ensures Flatten(hs + [h]) == Flatten(hs) + h
  {
    if hs == [] {
      assert [h][1..] == [];
    } else {
      assert (hs + [h])[1..] == hs[1..] + [h];
      FlattenAppend(hs[1..], h);
    }
  }

  method ComputeInternalHash16(sha: Sha, children: seq<Hash>) returns (h: Hash)
    requires |children| == 16
    ensures h == sha([1] + Flatten(children))
  {
    var buf := new byte[1 + 16 * 32];
    buf[0] := 0x01;
    var i := 0;
    while i < |children|
      invariant 0 <= i <= |children|
      invariant buf[..1 + 32 * i] == [1] + Flatten(children[..i])
    {
      CopyInto(buf, 1 + i * 32, children[i]);
      FlattenAppend(children[..i], children[i]);
      assert children[..i + 1] == children[..i] + [children[i]];
      i := i + 1;
    }
    assert buf[..] == buf[..513] && children[..16] == children;
    h := sha(buf[..]);
  }

  method GatherChildren(level: seq<Hash>, i: nat) returns (children: seq<Hash>)
    ensures children == Window(level, i, 16)
  {
    var slots := new Hash[16](_ => ZERO_HASH);
    var j := 0;
    while j < 16 && i + j < |level|
      invariant 0 <= j <= 16
      invariant forall k :: 0 <= k < j ==> slots[k] == HashAt(level, i + k)
      invariant forall k :: j <= k < 16 ==> slots[k] == ZERO_HASH
    {
      slots[j] := level[i + j];
      j := j + 1;
    }
    children := slots[..];
    assert forall k :: 0 <= k < 16 ==> children[k] == slots[k] == HashAt(level, i + k);
  }

  method Level16(sha: Sha, level: seq<Hash>) returns (next: seq<Hash>)
    ensures next == NextLevel(sha, 16, level)
  {
    var nextLevel := new Hash[(|level| + 15) / 16](_ => ZERO_HASH);
    var i := 0;
    while i < |level|
      invariant 0 <= i <= |level| + 15 && i % 16 == 0
      invariant forall k :: 0 <= k < i / 16 ==> nextLevel[k] == sha(NodePre(level, k, 16))
    {
      var children := GatherChildren(level, i);
      assert i == i / 16 * 16;
      nextLevel[i / 16] := ComputeInternalHash16(sha, children);
      i := i + 16;
    }
    next := nextLevel[..];
  }

  /** The 16-ary tree of the slot's bank hash. */
  method ComputeMerkleRoot16ary(sha: Sha, hashes: seq<Hash>) returns (root: Hash)
    ensures root == MerkleRoot(sha, 16, hashes)
  {
    if |hashes| == 0 {
      return ZERO_HASH;
    }
    if |hashes| == 1 {
      root := ComputeLeafHash(sha, hashes[0]);
      assert [root] == Hashes(sha, LeafPres(hashes));
      return;
    }
    var level := ComputeLeaves(sha, hashes);
    while |level| > 1
      invariant level != []
      invariant Climb(sha, 16, level) == MerkleRoot(sha, 16, hashes)
      decreases |level|
    {
      level := Level16(sha, level);
    }
    root := level[0];
  }
}
