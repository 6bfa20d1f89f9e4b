/** Bytes, fixed-width integers and the little-endian encoding that every
    on-disk, on-wire and hashed format of the node is built from. */
module Bytes {

  type byte = b: int | 0 <= b < 256
  type u16 = n: int | 0 <= n < 0x1_0000
  type u32 = n: int | 0 <= n < 0x1_0000_0000
  type u64 = n: int | 0 <= n < U64_SIZE

  const U64_SIZE: int := 0x1_0000_0000_0000_0000

  type Bytes32 = s: seq<byte> | |s| == 32 witness ZeroBytes(32)
  type Pubkey = Bytes32
  type Hash = Bytes32

  /** SHA-256 is a parameter of everything that hashes: some function from byte
      strings to digests about which nothing else is known. */
  type Sha = seq<byte> -> Hash

  datatype Option<+T> = None | Some(value: T)

  datatype Result<+T, +E> = Ok(value: T) | Err(error: E)

  function ZeroBytes(n: nat): (z: seq<byte>)
    ensures |z| == n && forall i :: 0 <= i < n ==> z[i] == 0
  {
    seq(n, i => 0)
  }

  const ZERO_HASH: Hash := ZeroBytes(32)

  /** The size limit on account data, 10 MiB. */
  const MAX_DATA: int := 10 * 1024 * 1024

  function Flag(b: bool): byte {
    if b then 1 else 0
  }

  /** Go's addition of two uint64 values. */
  function WrapAdd(a: u64, b: u64): u64 {
    if a + b < U64_SIZE then a + b else a + b - U64_SIZE
  }

  function Min(a: int, b: int): int {
    if a <= b then a else b
  }

  lemma MulMono(a: int, b: int, c: int)
    requires a <= b && c >= 0
    ensures a * c <= b * c
  {
    assert (b - a) * c >= 0;
  }

  lemma Assoc(a: seq<byte>, b: seq<byte>, c: seq<byte>)
    ensures a + (b + c) == (a + b) + c
  {
  }

  function Pow256(n: nat): (p: int)
    ensures p >= 1
  {
    if n == 0 then 1 else 256 * Pow256(n - 1)
  }

  /** A slice of the middle piece. */
  lemma Within(pre: seq<byte>, s: seq<byte>, tail: seq<byte>, i: nat, j: nat)
    requires i <= j <= |s|
    ensures (pre + s + tail)[|pre| + i..|pre| + j] == s[i..j]
  {
  }

  /** The n low-order bytes of v, least significant first. */
  function LE(v: nat, n: nat): (s: seq<byte>)
    ensures |s| == n
  {
    if n == 0 then [] else [v % 256] + LE(v / 256, n - 1)
  }

  /** The number that a little-endian byte string denotes. */
  function UnLE(s: seq<byte>): (v: nat) {
    if s == [] then 0 else s[0] + 256 * UnLE(s[1..])
  }

  lemma {:induction false} UnLEBound(s: seq<byte>)
    ensures UnLE(s) < Pow256(|s|)
  {
    if s != [] { UnLEBound(s[1..]); }
  }

  lemma {:induction false} LERoundTrip(v: nat, n: nat)
    requires v < Pow256(n)
    ensures UnLE(LE(v, n)) == v
  {
    if n > 0 {
      assert LE(v, n)[1..] == LE(v / 256, n - 1);
      LERoundTrip(v / 256, n - 1);
    }
  }

  lemma Pow256Values()
    ensures Pow256(1) == 0x100 && Pow256(2) == 0x1_0000 && Pow256(4) == 0x1_0000_0000
    ensures Pow256(8) == U64_SIZE
  {
    assert Pow256(4) == 256 * (256 * (256 * (256 * Pow256(0))));
    assert Pow256(8) == 256 * (256 * (256 * (256 * Pow256(4))));
  }

  lemma LE8(v: u64)
    ensures UnLE(LE(v, 8)) == v
  {
    Pow256Values();
    LERoundTrip(v, 8);
  }

  lemma LE4(v: u32)
    ensures UnLE(LE(v, 4)) == v
  {
    Pow256Values();
    LERoundTrip(v, 4);
  }

  lemma LE2(v: u16)
    ensures UnLE(LE(v, 2)) == v
  {
    Pow256Values();
    LERoundTrip(v, 2);
  }

  /** An eight-byte field always fits a u64. */
  function Read8(s: seq<byte>): (v: u64)
    requires |s| == 8
  {
    UnLEBound(s);
    Pow256Values();
    UnLE(s)
  }

  function Read4(s: seq<byte>): (v: u32)
    requires |s| == 4
  {
    UnLEBound(s);
    Pow256Values();
    UnLE(s)
  }

  function Read2(s: seq<byte>): (v: u16)
    requires |s| == 2
  {
    UnLEBound(s);
    Pow256Values();
    UnLE(s)
  }

  /** Copies src over dst from the given offset, as Go's copy(dst[off:], src)
      does when src fits. */
  method CopyInto(dst: array<byte>, off: nat, src: seq<byte>)
    requires off + |src| <= dst.Length
    modifies dst
    ensures dst[..off] == old(dst[..off])
    ensures dst[off..off + |src|] == src
    ensures dst[off + |src|..] == old(dst[off + |src|..])
    ensures dst[..off + |src|] == old(dst[..off]) + src
  {
    var i := 0;
    while i < |src|
      invariant 0 <= i <= |src|
      invariant dst[..off] == old(dst[..off])
      invariant dst[off..off + i] == src[..i]
      invariant forall k :: off + i <= k < dst.Length ==> dst[k] == old(dst[k])
    {
      dst[off + i] := src[i];
      i := i + 1;
    }
    assert dst[..off + |src|] == dst[..off] + dst[off..off + |src|];
  }

  // ------------------------------------------------------------ bytes of a number

  function ByteOf(v: nat, k: nat): byte
    decreases k
  {
    if k == 0 then v % 256 else ByteOf(v / 256, k - 1)
  }

  /** Little-endian: byte k of the form is byte k of the number. */
  lemma {:induction false} LEBytes(v: nat, n: nat, k: nat)
    requires k < n
    ensures LE(v, n)[k] == ByteOf(v, k)
    decreases n
  {
    if k > 0 { LEBytes(v / 256, n - 1, k - 1); }
  }

  /** A number with these bytes, and no more. */
  ghost predicate HasBytes(v: nat, bytes: seq<byte>) {
    v < Pow256(|bytes|) && forall k: nat :: k < |bytes| ==> ByteOf(v, k) == bytes[k]
  }

  lemma {:induction false} ReadsBytes(bytes: seq<byte>)
    ensures HasBytes(UnLE(bytes), bytes)
    decreases |bytes|
  {
    UnLEBound(bytes);
    if bytes != [] {
      ReadsBytes(bytes[1..]);
      var v := UnLE(bytes);
      assert v % 256 == bytes[0] && v / 256 == UnLE(bytes[1..]);
      forall k: nat | k < |bytes| ensures ByteOf(v, k) == bytes[k] {
        if k > 0 { assert ByteOf(v / 256, k - 1) == bytes[1..][k - 1]; }
      }
    }
  }
}
