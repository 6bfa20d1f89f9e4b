/** The input region of a BPF program: how accounts are laid out in it and how they
    are read back (pkg/svm/executor/bpf_executor.go). */
module BpfInput {
  import opened Bytes
  import opened ExecAccount

  function Pad(n: nat): (p: nat)
    ensures p < 8
  {
    (8 - n % 8) % 8
  }

  // ------------------------------------------------------------------- layout

  /** The first eight bytes; the index is cut to a byte. */
  function Flags(i: nat, a: Acct): (s: seq<byte>)
    ensures |s| == 8
  {
    [i % 256, Flag(a.isSigner), Flag(a.isWritable), Flag(a.executable), 0, 0, 0, 0]
  }

  /** The 72 bytes before the balance. */
  function Head(i: nat, a: Acct): (s: seq<byte>)
    ensures |s| == 72
  {
    Flags(i, a) + a.key + a.owner
  }

  /** From the balance on. */
  function Body(a: Acct): (s: seq<byte>)
    ensures |s| == BlockSize(|a.data|) - 72
  {
    LE(a.lamports, 8) + LE(|a.data|, 8) + a.data + ZeroBytes(Pad(|a.data|)) + LE(a.rentEpoch, 8)
  }

  function Block(i: nat, a: Acct): (s: seq<byte>)
    ensures |s| == BlockSize(|a.data|)
  {
    Head(i, a) + Body(a)
  }

  function BlockSize(dataLen: nat): nat {
    88 + dataLen + Pad(dataLen) + 8
  }

  /** The blocks of accounts, the first of which has index i. */
  function Blocks(i: nat, accs: seq<Acct>): seq<byte>
    decreases |accs|, 1
  {
    if accs == [] then [] else BlocksFrom(i, accs)
  }

  function BlocksFrom(i: nat, accs: seq<Acct>): seq<byte>
    requires accs != []
    decreases |accs|, 0
  {
    Block(i, accs[0]) + Blocks(i + 1, accs[1..])
  }

  function TotalSize(accs: seq<Acct>): nat {
    if accs == [] then 0 else BlockSize(|accs[0].data|) + TotalSize(accs[1..])
  }

  lemma {:induction false} BlocksSize(i: nat, accs: seq<Acct>)
    ensures |Blocks(i, accs)| == TotalSize(accs)
    decreases |accs|
  {
    if accs != [] { BlocksSize(i + 1, accs[1..]); }
  }

  function Input(program: Pubkey, accs: seq<Acct>, data: seq<byte>): seq<byte> {
    LE(|accs|, 8) + Blocks(0, accs) + (LE(|data|, 8) + data + program)
  }

  // ------------------------------------------------------------- reading back

  datatype Verdict = Good | Invalid | Panics

  /** One account read from an offset: the account after it, the next offset. A
      length that overflows Go's int is passed to make, which panics. */
  function RestoreOne(buf: seq<byte>, off: nat, a: Acct): (Acct, nat, Verdict) {
    if !a.isWritable then (a, off + BlockSize(|a.data|), Good)
    else if off + 80 > |buf| then (a, off, Invalid)
    else
      var b := a.(lamports := Read8(buf[off + 72..off + 80]));
      if off + 88 > |buf| then (b, off, Invalid) else
      var n := Read8(buf[off + 80..off + 88]);
      if off + 88 + n >= 0x8000_0000_0000_0000 then (b, off, Panics)
      else if off + 88 + n > |buf| then (b, off, Invalid)
      else
        var c := b.(data := buf[off + 88..off + 88 + n]);
        var end := off + 88 + n + Pad(n);
        if end + 8 > |buf| then (c, off, Invalid)
        else (c.(rentEpoch := Read8(buf[end..end + 8])), end + 8, Good)
  }

  /** All accounts in order, stopping at the first error with the earlier ones
      already updated. */
  function Restore(buf: seq<byte>, off: nat, accs: seq<Acct>): (seq<Acct>, Verdict)
    decreases |accs|
  {
    if accs == [] then ([], Good) else
    var (a, next, v) := RestoreOne(buf, off, accs[0]);
    if v != Good then ([a] + accs[1..], v) else
    var (rest, w) := Restore(buf, next, accs[1..]);
    ([a] + rest, w)
  }

  /** What reading back a buffer made from other accounts is meant to do: only the
      balance, data and rent epoch of writable accounts come from the buffer. */
  function Merge(a: Acct, b: Acct): Acct {
    if a.isWritable then a.(lamports := b.lamports, data := b.data, rentEpoch := b.rentEpoch) else a
  }

  function MergeAll(accs: seq<Acct>, other: seq<Acct>): (r: seq<Acct>)
    requires |accs| == |other|
    ensures |r| == |accs|
  {
    seq(|accs|, i requires 0 <= i < |accs| => Merge(accs[i], other[i]))
  }

  lemma Regroup(a: seq<byte>, b: seq<byte>, c: seq<byte>, d: seq<byte>)
    ensures a + (b + c) + d == a + b + (c + d) && a + (b + c) + d == (a + b) + c + d
  {
  }

  /** The fields of a block, wherever it stands in a buffer. */
  lemma BlockFields(pre: seq<byte>, i: nat, a: Acct, rest: seq<byte>)
    ensures var buf, off, n := pre + Block(i, a) + rest, |pre|, |a.data|;
            var end := off + 88 + n + Pad(n);
            && |buf| == off + BlockSize(n) + |rest|
            && buf[off + 72..off + 80] == LE(a.lamports, 8) && buf[off + 80..off + 88] == LE(n, 8)
            && buf[off + 88..off + 88 + n] == a.data && buf[end..end + 8] == LE(a.rentEpoch, 8)
  {
    var buf, at := pre + Block(i, a) + rest, |pre| + 72;
    Regroup(pre, Head(i, a), Body(a), rest);
    BodyFields(pre + Head(i, a), a, rest);
  }

  lemma BodyFields(pre: seq<byte>, a: Acct, rest: seq<byte>)
    ensures var buf, at, n := pre + Body(a) + rest, |pre|, |a.data|;
            var end := at + 16 + n + Pad(n);
            && |buf| == end + 8 + |rest|
            && buf[at..at + 8] == LE(a.lamports, 8) && buf[at + 8..at + 16] == LE(n, 8)
            && buf[at + 16..at + 16 + n] == a.data && buf[end..end + 8] == LE(a.rentEpoch, 8)
  {
  }

  lemma RestoreFields(buf: seq<byte>, off: nat, a: Acct, b: Acct, end: nat)
    requires |buf| < 0x8000_0000_0000_0000 && (!a.isWritable ==> |a.data| == |b.data|)
    requires end == off + 88 + |b.data| + Pad(|b.data|) && end + 8 <= |buf|
    requires Read8(buf[off + 72..off + 80]) == b.lamports && Read8(buf[off + 80..off + 88]) == |b.data|
    requires buf[off + 88..off + 88 + |b.data|] == b.data && Read8(buf[end..end + 8]) == b.rentEpoch
    ensures RestoreOne(buf, off, a) == (Merge(a, b), off + BlockSize(|b.data|), Good)
  {
  }

  lemma FieldsRead(b: Acct)
    requires |b.data| < 0x8000_0000_0000_0000
    ensures Read8(LE(b.lamports, 8)) == b.lamports && Read8(LE(|b.data|, 8)) == |b.data|
    ensures Read8(LE(b.rentEpoch, 8)) == b.rentEpoch
  {
    LE8(b.lamports);
    LE8(|b.data|);
    LE8(b.rentEpoch);
  }

  lemma RestoreBlock(pre: seq<byte>, i: nat, a: Acct, b: Acct, rest: seq<byte>)
    requires |pre| + BlockSize(|b.data|) + |rest| < 0x8000_0000_0000_0000 && (!a.isWritable ==> |a.data| == |b.data|)
    ensures RestoreOne(pre + Block(i, b) + rest, |pre|, a) == (Merge(a, b), |pre| + BlockSize(|b.data|), Good)
  {
    BlockFields(pre, i, b, rest);
    FieldsRead(b);
    RestoreFields(pre + Block(i, b) + rest, |pre|, a, b, |pre| + 88 + |b.data| + Pad(|b.data|));
  }

  lemma {:induction false} RestoreBlocks(pre: seq<byte>, i: nat, accs: seq<Acct>, bs: seq<Acct>, tail: seq<byte>)
    requires |accs| == |bs| && |pre| + TotalSize(bs) + |tail| < 0x8000_0000_0000_0000
    requires forall k :: 0 <= k < |accs| && !accs[k].isWritable ==> |accs[k].data| == |bs[k].data|
    ensures Restore(pre + Blocks(i, bs) + tail, |pre|, accs) == (MergeAll(accs, bs), Good)
    decreases |accs|
  {
    if accs != [] {
      var block, more := Block(i, bs[0]), Blocks(i + 1, bs[1..]);
      BlocksSize(i + 1, bs[1..]);
      Regroup(pre, block, more, tail);
      RestoreBlock(pre, i, accs[0], bs[0], more + tail);
      RestoreBlocks(pre + block, i + 1, accs[1..], bs[1..], tail);
      MergeFirst(accs, bs);
    }
  }

  lemma MergeFirst(accs: seq<Acct>, bs: seq<Acct>)
    requires |accs| == |bs| > 0
    ensures MergeAll(accs, bs) == [Merge(accs[0], bs[0])] + MergeAll(accs[1..], bs[1..])
  {
  }

  /** Reading back a buffer laid out for some accounts into others: every writable
      account takes balance, data (of any length) and rent epoch from its own block
      and from nowhere else; read-only accounts stay as they are. */
  lemma RestoreInput(program: Pubkey, accs: seq<Acct>, bs: seq<Acct>, data: seq<byte>)
    requires |accs| == |bs| && |Input(program, bs, data)| < 0x8000_0000_0000_0000
    requires forall k :: 0 <= k < |accs| && !accs[k].isWritable ==> |accs[k].data| == |bs[k].data|
    ensures Restore(Input(program, bs, data), 8, accs) == (MergeAll(accs, bs), Good)
  {
    BlocksSize(0, bs);
    RestoreBlocks(LE(|bs|, 8), 0, accs, bs, LE(|data|, 8) + data + program);
  }

  /** The untouched buffer restores every account. */
  lemma UntouchedInput(program: Pubkey, accs: seq<Acct>, data: seq<byte>)
    requires |Input(program, accs, data)| < 0x8000_0000_0000_0000
    ensures Restore(Input(program, accs, data), 8, accs) == (accs, Good)
  {
    RestoreInput(program, accs, accs, data);
    assert MergeAll(accs, accs) == accs;
  }

  /** Overwriting the balance, the data bytes or the rent epoch in one account's
      block changes that account if it is writable, and nothing else ever. */
  lemma OneAccountOverwritten(program: Pubkey, accs: seq<Acct>, k: nat, b: Acct, data: seq<byte>)
    requires k < |accs| && |b.data| == |accs[k].data|
    requires |Input(program, accs[k := b], data)| < 0x8000_0000_0000_0000
    ensures Restore(Input(program, accs[k := b], data), 8, accs) == (accs[k := Merge(accs[k], b)], Good)
  {
    var bs := accs[k := b];
    RestoreInput(program, accs, bs, data);
    assert MergeAll(accs, bs) == accs[k := Merge(accs[k], b)];
  }
}
