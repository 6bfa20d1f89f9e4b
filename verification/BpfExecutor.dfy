/** Executing one BPF instruction (pkg/svm/executor/bpf_executor.go): accounts are
    laid out in a buffer, the machine runs over it, and what the buffer then holds
    is written back into the account objects. */
module BpfExecutor {
  import opened Bytes
  import opened ExecAccount
  import opened BpfInput
  import Vm
  import VmIsa
  import VmMemory
  import VmRuns
  import Interpreter

  class AccountInfo {
    const key: Pubkey
    const owner: Pubkey
    const executable: bool
    const isSigner: bool
    const isWritable: bool
    var lamports: u64
    var data: array<byte>
    var rentEpoch: u64
    var originalData: array<byte>
    var originalLamports: u64

    constructor (a: Acct)
      ensures Val() == a && fresh(data)
    {
      key, owner, executable, isSigner, isWritable := a.key, a.owner, a.executable, a.isSigner, a.isWritable;
      lamports, rentEpoch, originalLamports := a.lamports, a.rentEpoch, 0;
      data := new byte[|a.data|](i requires 0 <= i < |a.data| => a.data[i]);
      originalData := new byte[0];
      new;
      assert data[..] == a.data;
    }

    ghost function Val(): Acct reads this`lamports, this`data, this`rentEpoch, data {
      Acct(key, owner, lamports, data[..], executable, rentEpoch, isSigner, isWritable)
    }

    ghost predicate Marked() reads this, data, originalData {
      originalLamports == lamports && originalData[..] == data[..]
    }

    method MarkOriginal()
      modifies this`originalData, this`originalLamports
      ensures Marked() && fresh(originalData)
    {
      originalData := new byte[data.Length];
      CopyInto(originalData, 0, data[..]);
      assert originalData[..] == originalData[..data.Length];
      originalLamports := lamports;
    }

    method IsModified() returns (yes: bool)
      ensures yes <==> !Marked()
    {
      if lamports != originalLamports { return true; }
      if data.Length != originalData.Length {
        assert |data[..]| != |originalData[..]|;
        return true;
      }
      var i := 0;
      while i < data.Length
        invariant 0 <= i <= data.Length
        invariant data[..i] == originalData[..i]
      {
        if data[i] != originalData[i] {
          assert data[..][i] != originalData[..][i];
          return true;
        }
        i := i + 1;
      }
      assert data[..] == data[..i] && originalData[..] == originalData[..i];
      return false;
    }
  }

  /** Different objects with different data arrays. */
  ghost predicate Separate(accs: seq<AccountInfo>)
    reads accs`data
  {
    forall i, j :: 0 <= i < j < |accs| ==> accs[i] != accs[j] && accs[i].data != accs[j].data
  }

  /** The objects hold these values. */
  ghost predicate Shows(accs: seq<AccountInfo>, vals: seq<Acct>)
    reads accs`lamports, accs`data, accs`rentEpoch, set a | a in accs :: a.data
  {
    |accs| == |vals| && forall i :: 0 <= i < |accs| ==> accs[i].Val() == vals[i]
  }

  // ---------------------------------------------------------------- serialize

  lemma {:induction false} BlocksAppend(i: nat, accs: seq<Acct>, a: Acct)
    ensures Blocks(i, accs + [a]) == Blocks(i, accs) + Block(i + |accs|, a)
    decreases |accs|
  {
    if accs == [] {
      OneBlock(i, a);
    } else {
      var more := accs + [a];
      assert more[1..] == accs[1..] + [a];
      BlocksAppend(i + 1, accs[1..], a);
      Assoc(Block(i, accs[0]), Blocks(i + 1, accs[1..]), Block(i + |accs|, a));
    }
  }

  lemma OneBlock(i: nat, a: Acct)
    ensures Blocks(i, [] + [a]) == Blocks(i, []) + Block(i, a)
  {
    var one := [] + [a];
    assert Blocks(i + 1, one[1..]) == [];
  }

  lemma {:induction false} SizeAppend(accs: seq<Acct>, a: Acct)
    ensures TotalSize(accs + [a]) == TotalSize(accs) + BlockSize(|a.data|)
  {
    if accs != [] {
      assert (accs + [a])[1..] == accs[1..] + [a];
      SizeAppend(accs[1..], a);
    }
  }

  ghost predicate Clear(buf: array<byte>, from: nat) reads buf {
    forall k :: from <= k < buf.Length ==> buf[k] == 0
  }

  method Emit(buf: array<byte>, at: nat, src: seq<byte>) returns (offset: nat)
    requires at + |src| <= buf.Length && Clear(buf, at)
    modifies buf
    ensures offset == at + |src| && buf[..offset] == old(buf[..at]) + src && Clear(buf, offset)
  {
    CopyInto(buf, at, src);
    offset := at + |src|;
    forall k | offset <= k < buf.Length ensures buf[k] == 0 {
      assert buf[k] == buf[offset..][k - offset] == old(buf[k]);
    }
  }

  method WriteBlock(buf: array<byte>, at: nat, i: nat, acc: AccountInfo) returns (offset: nat)
    requires at + BlockSize(acc.data.Length) <= buf.Length && buf != acc.data && Clear(buf, at)
    modifies buf
    ensures offset == at + BlockSize(acc.data.Length)
    ensures buf[..offset] == old(buf[..at]) + Block(i, acc.Val())
    ensures Clear(buf, offset)
  {
    ghost var head := buf[..at];
    offset := WriteHead(buf, at, i, acc);
    offset := WriteBody(buf, offset, acc);
    assert buf[..offset] == head + Block(i, acc.Val());
  }

  method WriteHead(buf: array<byte>, at: nat, i: nat, acc: AccountInfo) returns (offset: nat)
    requires at + 72 <= buf.Length && buf != acc.data && Clear(buf, at)
    modifies buf
    ensures offset == at + 72 && buf[..offset] == old(buf[..at]) + Head(i, acc.Val()) && Clear(buf, offset)
  {
    ghost var head := buf[..at];
    offset := WriteFlags(buf, at, i, acc);
    offset := Emit(buf, offset, acc.key);
    offset := Emit(buf, offset, acc.owner);
    assert buf[..offset] == head + Head(i, acc.Val());
  }

  method WriteFlags(buf: array<byte>, at: nat, i: nat, acc: AccountInfo) returns (offset: nat)
    requires at + 8 <= buf.Length && buf != acc.data && Clear(buf, at)
    modifies buf
    ensures offset == at + 8 && buf[..offset] == old(buf[..at]) + Flags(i, acc.Val()) && Clear(buf, offset)
  {
    offset := at;
    buf[offset] := i % 256;
    offset := offset + 1;
    if acc.isSigner { buf[offset] := 1; }
    offset := offset + 1;
    if acc.isWritable { buf[offset] := 1; }
    offset := offset + 1;
    if acc.executable { buf[offset] := 1; }
    offset := offset + 1;
    offset := offset + 4;
    forall k | offset <= k < buf.Length ensures buf[k] == 0 {
      assert buf[k] == old(buf[k]);
    }
  }

  method WriteBody(buf: array<byte>, at: nat, acc: AccountInfo) returns (offset: nat)
    requires at + BlockSize(acc.data.Length) - 72 <= buf.Length && buf != acc.data && Clear(buf, at)
    modifies buf
    ensures offset == at + BlockSize(acc.data.Length) - 72
    ensures buf[..offset] == old(buf[..at]) + Body(acc.Val())
    ensures Clear(buf, offset)
  {
    ghost var head, a := buf[..at], acc.Val();
    offset := Emit(buf, at, LE(acc.lamports, 8));
    offset := Emit(buf, offset, LE(acc.data.Length, 8));
    offset := Emit(buf, offset, acc.data[..]);
    offset := WritePadding(buf, offset, Pad(acc.data.Length));
    offset := Emit(buf, offset, LE(acc.rentEpoch, 8));
    ghost var l, n, z, r := LE(a.lamports, 8), LE(|a.data|, 8), ZeroBytes(Pad(|a.data|)), LE(a.rentEpoch, 8);
    Assoc(head, l, n);
    Assoc(head, l + n, a.data);
    Assoc(head, l + n + a.data, z);
    Assoc(head, l + n + a.data + z, r);
  }

  /** The bytes skipped over are the zeros the buffer was made with. */
  method WritePadding(buf: array<byte>, at: nat, n: nat) returns (offset: nat)
    requires at + n <= buf.Length && Clear(buf, at)
    ensures offset == at + n && buf[..offset] == buf[..at] + ZeroBytes(n) && Clear(buf, offset)
  {
    offset := at + n;
  }

  ghost predicate AllMarked(accs: seq<AccountInfo>, vals: seq<Acct>)
    requires |accs| == |vals|
    reads accs`originalLamports, accs`originalData, set a | a in accs :: a.originalData
  {
    forall i :: 0 <= i < |accs| ==>
      accs[i].originalLamports == vals[i].lamports && accs[i].originalData[..] == vals[i].data
  }

  method MarkAll(accs: seq<AccountInfo>, ghost vals: seq<Acct>) returns (size: nat)
    requires Shows(accs, vals)
    modifies accs`originalData, accs`originalLamports
    ensures AllMarked(accs, vals) && forall a :: a in accs ==> fresh(a.originalData)
    ensures size == TotalSize(vals)
  {
    size := 0;
    var i := 0;
    while i < |accs|
      invariant 0 <= i <= |accs|
      invariant forall k :: 0 <= k < i ==> accs[k].Marked() && fresh(accs[k].originalData)
      invariant size == TotalSize(vals[..i])
    {
      SizePrefix(vals, i);
      assert vals[i] == accs[i].Val();
      size := size + BlockSize(accs[i].data.Length);
      accs[i].MarkOriginal();
      i := i + 1;
    }
    assert vals[..i] == vals;
    forall k | 0 <= k < |accs|
      ensures accs[k].originalLamports == vals[k].lamports && accs[k].originalData[..] == vals[k].data
    {
      assert accs[k].Marked() && accs[k].Val() == vals[k];
    }
  }

  lemma SizePrefix(vals: seq<Acct>, i: nat)
    requires i < |vals|
    ensures TotalSize(vals[..i + 1]) == TotalSize(vals[..i]) + BlockSize(|vals[i].data|)
  {
    SizeAppend(vals[..i], vals[i]);
    assert vals[..i + 1] == vals[..i] + [vals[i]];
  }

  lemma BlocksPrefix(vals: seq<Acct>, i: nat)
    requires i < |vals|
    ensures Blocks(0, vals[..i + 1]) == Blocks(0, vals[..i]) + Block(i, vals[i])
  {
    BlocksAppend(0, vals[..i], vals[i]);
    assert vals[..i + 1] == vals[..i] + [vals[i]];
  }

  method WriteBlocks(buf: array<byte>, accs: seq<AccountInfo>, ghost vals: seq<Acct>) returns (offset: nat)
    requires Shows(accs, vals) && 8 + TotalSize(vals) <= buf.Length && Clear(buf, 0)
    requires forall a :: a in accs ==> a.data != buf
    modifies buf
    ensures offset == 8 + TotalSize(vals) && Clear(buf, offset)
    ensures buf[..offset] == LE(|accs|, 8) + Blocks(0, vals)
  {
    ghost var head := LE(|accs|, 8);
    offset := Emit(buf, 0, LE(|accs|, 8));
    var i := 0;
    TotalSizePrefix(vals, 0);
    while i < |accs|
      invariant 0 <= i <= |accs|
      invariant offset == 8 + TotalSize(vals[..i]) <= 8 + TotalSize(vals)
      invariant buf[..offset] == head + Blocks(0, vals[..i])
      invariant Clear(buf, offset)
    {
      SizePrefix(vals, i);
      BlocksPrefix(vals, i);
      TotalSizePrefix(vals, i + 1);
      assert vals[i] == accs[i].Val();
      Assoc(head, Blocks(0, vals[..i]), Block(i, vals[i]));
      offset := WriteBlock(buf, offset, i, accs[i]);
      i := i + 1;
    }
    assert vals[..i] == vals;
  }

  /** Fills a buffer of the size computed beforehand to its last byte. */
  method LayOut(program: Pubkey, accs: seq<AccountInfo>, ghost vals: seq<Acct>, data: seq<byte>, size: nat)
      returns (buf: array<byte>)
    requires Shows(accs, vals) && size == TotalSize(vals)
    ensures fresh(buf) && buf[..] == Input(program, vals, data)
  {
    BlocksSize(0, vals);
    buf := new byte[8 + size + 8 + |data| + 32](_ => 0);
    var offset := WriteBlocks(buf, accs, vals);
    WriteTail(buf, offset, program, data);
  }

  method WriteTail(buf: array<byte>, at: nat, program: Pubkey, data: seq<byte>)
    requires at + 8 + |data| + 32 == buf.Length && Clear(buf, at)
    modifies buf
    ensures buf[..] == old(buf[..at]) + (LE(|data|, 8) + data + program)
  {
    ghost var before := buf[..at];
    var offset := Emit(buf, at, LE(|data|, 8));
    offset := Emit(buf, offset, data);
    offset := Emit(buf, offset, program);
    assert buf[..] == buf[..offset] == before + (LE(|data|, 8) + data + program);
  }

  /** Account data is neither the buffer nor anyone's kept copy. */
  ghost predicate Apart(accs: seq<AccountInfo>, buf: array<byte>)
    reads accs`data, accs`originalData
  {
    forall a :: a in accs ==> a.data != buf && forall b :: b in accs ==> a.data != b.originalData
  }

  /** Lays out the accounts and marks their state for change detection. */
  method SerializeInput(program: Pubkey, accs: seq<AccountInfo>, ghost vals: seq<Acct>, data: seq<byte>)
      returns (buf: array<byte>)
    requires Shows(accs, vals)
    modifies accs`originalData, accs`originalLamports
    ensures AllMarked(accs, vals) && Apart(accs, buf) && fresh(buf)
    ensures buf[..] == Input(program, vals, data)
  {
    var size := MarkAll(accs, vals);
    buf := LayOut(program, accs, vals, data, size);
  }

  lemma {:induction false} TotalSizePrefix(accs: seq<Acct>, i: nat)
    requires i <= |accs|
    ensures TotalSize(accs[..i]) <= TotalSize(accs)
    decreases |accs| - i
  {
    if i < |accs| {
      SizePrefix(accs, i);
      TotalSizePrefix(accs, i + 1);
    } else {
      assert accs[..i] == accs;
    }
  }

  // -------------------------------------------------------------- deserialize

  /** In place when the length is the same, in a new array otherwise. */
  method SetData(acc: AccountInfo, bytes: seq<byte>)
    modifies acc`data, acc.data
    ensures acc.data[..] == bytes && (acc.data == old(acc.data) || fresh(acc.data))
    ensures acc.data.Length == old(acc.data.Length) ==> acc.data == old(acc.data)
  {
    if acc.data.Length != |bytes| {
      acc.data := new byte[|bytes|];
    }
    CopyInto(acc.data, 0, bytes);
    assert acc.data[..] == acc.data[..|bytes|];
  }

  method RestoreAccount(buf: array<byte>, at: nat, acc: AccountInfo) returns (offset: nat, v: Verdict)
    requires buf != acc.data
    modifies acc`lamports, acc`data, acc`rentEpoch, acc.data
    ensures acc.data == old(acc.data) || fresh(acc.data)
    ensures acc.data.Length == old(acc.data.Length) ==> acc.data == old(acc.data)
    ensures (acc.Val(), offset, v) == RestoreOne(buf[..], at, old(acc.Val()))
  {
    offset := at;
    if !acc.isWritable {
      return offset + BlockSize(acc.data.Length), Good;
    }
    if offset + 80 > buf.Length { return offset, Invalid; }
    acc.lamports := Read8(buf[offset + 72..offset + 80]);
    if offset + 88 > buf.Length { return offset, Invalid; }
    var dataLen := Read8(buf[offset + 80..offset + 88]);
    if offset + 88 + dataLen >= 0x8000_0000_0000_0000 { return offset, Panics; }
    if offset + 88 + dataLen > buf.Length { return offset, Invalid; }
    SetData(acc, buf[offset + 88..offset + 88 + dataLen]);
    var end := offset + 88 + dataLen + Pad(dataLen);
    if end + 8 > buf.Length { return offset, Invalid; }
    acc.rentEpoch := Read8(buf[end..end + 8]);
    return end + 8, Good;
  }

  lemma AssocAccts(x: seq<Acct>, y: seq<Acct>, z: seq<Acct>)
    ensures x + (y + z) == (x + y) + z
  {
  }

  /** What Restore does at account i, with done already behind it. */
  lemma RestoreStep(buf: seq<byte>, off: nat, vals: seq<Acct>, i: nat, done: seq<Acct>)
    requires i < |vals|
    ensures var (a, next, v) := RestoreOne(buf, off, vals[i]);
            var (rest', w') := Restore(buf, next, vals[i + 1..]);
            && (done + Restore(buf, off, vals[i..]).0 == done + [a] + if v != Good then vals[i + 1..] else rest')
            && Restore(buf, off, vals[i..]).1 == if v != Good then v else w'
  {
    assert vals[i..][0] == vals[i] && vals[i..][1..] == vals[i + 1..];
    var (a, next, v) := RestoreOne(buf, off, vals[i]);
    AssocAccts(done, [a], vals[i + 1..]);
    AssocAccts(done, [a], Restore(buf, next, vals[i + 1..]).0);
  }

  /** Reading everything back comes to what is done and reading back the rest. */
  ghost predicate Remains(b: seq<byte>, vals: seq<Acct>, done: seq<Acct>, offset: nat)
    requires |done| <= |vals|
  {
    var rest := Restore(b, offset, vals[|done|..]);
    Restore(b, 8, vals) == (done + rest.0, rest.1)
  }

  /** One more account: either the reading ends here, or the rest remains. */
  lemma TurnRemains(b: seq<byte>, vals: seq<Acct>, done: seq<Acct>, offset: nat)
    requires |done| < |vals| && Remains(b, vals, done, offset)
    ensures var (a, next, v) := RestoreOne(b, offset, vals[|done|]);
            if v != Good then Restore(b, 8, vals) == (done + [a] + vals[|done| + 1..], v)
            else Remains(b, vals, done + [a], next)
  {
    RestoreStep(b, offset, vals, |done|, done);
  }

  /** Nothing in the buffer differs from what the accounts from i on hold. */
  ghost predicate Same(b: seq<byte>, vals: seq<Acct>, i: nat, offset: nat)
    requires i <= |vals|
  {
    Restore(b, offset, vals[i..]) == (vals[i..], Good)
  }

  lemma SameTurn(b: seq<byte>, vals: seq<Acct>, i: nat, offset: nat)
    requires i < |vals| && Same(b, vals, i, offset)
    ensures var (a, next, v) := RestoreOne(b, offset, vals[i]); a == vals[i] && v == Good && Same(b, vals, i + 1, next)
  {
    RestoreStep(b, offset, vals, i, []);
    var (a, next, v) := RestoreOne(b, offset, vals[i]);
    var rest := Restore(b, next, vals[i + 1..]).0;
    assert [] + Restore(b, offset, vals[i..]).0 == vals[i..];
    assert vals[i..] == [vals[i]] + vals[i + 1..];
    assert [] + [a] + vals[i + 1..] == [a] + vals[i + 1..] && [] + [a] + rest == [a] + rest;
    assert ([a] + vals[i + 1..])[0] == a && ([a] + rest)[0] == a && ([a] + rest)[1..] == rest;
    assert vals[i..][1..] == vals[i + 1..];
  }

  /** The reading has reached account i, with the accounts holding now. If they are
      apart, that is what Restore has done so far; if the buffer holds what they held,
      nothing has changed. */
  ghost predicate Reading(b: seq<byte>, vals: seq<Acct>, now: seq<Acct>, i: nat, offset: nat, v: Verdict, apart: bool,
      same: bool) {
    && |now| == |vals| && i <= |vals|
    && (apart ==> now[i..] == vals[i..])
    && (apart ==> if v == Good then Remains(b, vals, now[..i], offset) else Restore(b, 8, vals) == (now, v))
    && (same ==> v == Good && now == vals && Same(b, vals, i, offset))
  }

  lemma ReadingStarts(b: seq<byte>, vals: seq<Acct>, apart: bool, same: bool)
    requires same ==> Restore(b, 8, vals) == (vals, Good)
    ensures Reading(b, vals, vals, 0, 8, Good, apart, same)
  {
    assert vals[0..] == vals && vals[..0] == [] && [] + Restore(b, 8, vals).0 == Restore(b, 8, vals).0;
  }

  lemma ReadingEnds(b: seq<byte>, vals: seq<Acct>, now: seq<Acct>, i: nat, offset: nat, v: Verdict, apart: bool,
      same: bool)
    requires Reading(b, vals, now, i, offset, v, apart, same) && (v == Good ==> i == |vals|)
    ensures apart ==> Restore(b, 8, vals) == (now, v)
    ensures same ==> v == Good && now == vals
  {
    if apart && v == Good {
      assert vals[i..] == [] && now[..i] == now;
      assert now[..i] + [] == now;
    }
  }

  lemma ReadingStep(b: seq<byte>, vals: seq<Acct>, now: seq<Acct>, i: nat, offset: nat, apart: bool, same: bool)
    requires i < |vals| && Reading(b, vals, now, i, offset, Good, apart, same) && (apart || same)
    ensures var (a, next, v) := RestoreOne(b, offset, now[i]);
      (same ==> a == now[i]) && Reading(b, vals, now[i := a], i + 1, next, v, apart, same)
  {
    var (a, next, v) := RestoreOne(b, offset, now[i]);
    if apart {
      assert now[i] == now[i..][0] == vals[i];
      TurnRemains(b, vals, now[..i], offset);
      var then_ := now[i := a];
      assert then_[..i + 1] == now[..i] + [a] && then_[i + 1..] == now[i..][1..] == vals[i..][1..] == vals[i + 1..];
      assert then_ == then_[..i + 1] + then_[i + 1..];
    }
    if same { SameTurn(b, vals, i, offset); }
  }

  /** One account read back, where the accounts are apart or the buffer holds what they
      hold. */
  method RestoreNth(buf: array<byte>, at: nat, ghost accs: seq<AccountInfo>, acc: AccountInfo,
                    ghost vals: seq<Acct>, ghost before: seq<Acct>, ghost i: nat, ghost apart: bool, ghost same: bool)
    returns (offset: nat, v: Verdict, ghost now: seq<Acct>)
    requires |accs| == |vals| && i < |accs| && acc == accs[i] && buf != acc.data
    requires apart ==> Separate(accs)
    requires apart || same ==> Shows(accs, before) && Reading(buf[..], vals, before, i, at, Good, apart, same)
    modifies acc`lamports, acc`data, acc`rentEpoch, acc.data
    ensures acc.data == old(acc.data) || fresh(acc.data)
    ensures apart ==> Separate(accs)
    ensures apart || same ==> Shows(accs, now) && Reading(buf[..], vals, now, i + 1, offset, v, apart, same)
  {
    if apart || same { ReadingStep(buf[..], vals, before, i, at, apart, same); }
    offset, v := RestoreAccount(buf, at, acc);
    now := before;
    if apart || same {
      now := before[i := acc.Val()];
      forall k | 0 <= k < |accs| ensures accs[k].Val() == now[k] {
        assert old(accs[k].Val()) == before[k];
        if accs[k] != acc { assert accs[k].data[..] == old(accs[k].data[..]); }
      }
    }
  }

  /** With separate accounts the result is Restore's; and a buffer that holds what the
      accounts hold changes none of them, even if they share data or are repeated. */
  method DeserializeOutput(buf: array<byte>, accs: seq<AccountInfo>, ghost vals: seq<Acct>)
      returns (v: Verdict, ghost after: seq<Acct>)
    requires Shows(accs, vals) && forall a :: a in accs ==> a.data != buf
    modifies accs`lamports, accs`data, accs`rentEpoch, set a | a in accs :: a.data
    ensures old(Separate(accs)) ==> Separate(accs) && Shows(accs, after) && (after, v) == Restore(buf[..], 8, vals)
    ensures Restore(buf[..], 8, vals) == (vals, Good) ==> v == Good && Shows(accs, vals)
  {
    ghost var b, apart := buf[..], Separate(accs);
    ghost var same := Restore(b, 8, vals) == (vals, Good);
    ReadingStarts(b, vals, apart, same);
    ghost var i, offset;
    v, after, i, offset := RestoreAll(buf, accs, vals, apart, same);
    if apart || same { ReadingEnds(b, vals, after, i, offset, v, apart, same); }
  }

  method RestoreAll(buf: array<byte>, accs: seq<AccountInfo>, ghost vals: seq<Acct>, ghost apart: bool,
      ghost same: bool)
    returns (v: Verdict, ghost now: seq<Acct>, ghost reached: nat, ghost end: nat)
    requires |accs| == |vals| && forall a :: a in accs ==> a.data != buf
    requires apart ==> Separate(accs)
    requires apart || same ==> Shows(accs, vals) && Reading(buf[..], vals, vals, 0, 8, Good, apart, same)
    modifies accs`lamports, accs`data, accs`rentEpoch, set a | a in accs :: a.data
    ensures apart ==> Separate(accs)
    ensures apart || same ==> Shows(accs, now) && Reading(buf[..], vals, now, reached, end, v, apart, same)
    ensures v == Good ==> reached == |vals|
  {
    var offset, i := 8, 0;
    v, now := Good, vals;
    while v == Good && i < |accs|
      invariant 0 <= i <= |accs| && buf[..] == old(buf[..])
      invariant forall k :: 0 <= k < |accs| ==>
        accs[k].data != buf && (accs[k].data == old(accs[k].data) || fresh(accs[k].data))
      invariant apart ==> Separate(accs)
      invariant apart || same ==> Shows(accs, now) && Reading(buf[..], vals, now, i, offset, v, apart, same)
      decreases v == Good, |accs| - i
    {
      offset, v, now := RestoreNth(buf, offset, accs, accs[i], vals, now, i, apart, same);
      i := i + 1;
    }
    reached, end := i, offset;
  }

  /** The keys of the writable accounts that differ from their kept copies, in order and
      once for each time they occur. */
  ghost function ModifiedKeys(accs: seq<AccountInfo>): seq<Pubkey>
    reads accs, set a | a in accs :: a.data, set a | a in accs :: a.originalData
  {
    if accs == [] then [] else
    var a := accs[|accs| - 1];
    ModifiedKeys(accs[..|accs| - 1]) + if a.isWritable && !a.Marked() then [a.key] else []
  }

  method FindModifiedAccounts(accs: seq<AccountInfo>) returns (keys: seq<Pubkey>)
    ensures keys == ModifiedKeys(accs)
  {
    keys := [];
    var i := 0;
    while i < |accs|
      invariant 0 <= i <= |accs| && keys == ModifiedKeys(accs[..i])
    {
      var changed := accs[i].IsModified();
      assert accs[..i + 1][..i] == accs[..i];
      if accs[i].isWritable && changed {
        keys := keys + [accs[i].key];
      }
      i := i + 1;
    }
    assert accs[..i] == accs;
  }

  lemma {:induction false} NoneModified(accs: seq<AccountInfo>)
    requires forall a :: a in accs && a.isWritable ==> a.Marked()
    ensures ModifiedKeys(accs) == []
  {
    if accs != [] { NoneModified(accs[..|accs| - 1]); }
  }

  datatype ExecutionResult = ExecutionResult(success: bool, returnValue: u64, unitsUsed: u64, modified: seq<Pubkey>)

  datatype ExecutionError = InstructionTooLarge

  const MAX_INSTRUCTION_DATA: int := 10 * 1024

  /** The machine as it starts: R1 at the input, R10 at the last byte of the first frame,
      the counter at the entry, stack and 32 KB of heap zero, and all units left. */
  ghost function StartState(entry: u64, ro: seq<byte>, input: seq<byte>, computeLimit: u64, host: Vm.Host): Vm.State {
    Vm.State(VmIsa.Signed64(entry), [0, 0x4_0000_0000, 0, 0, 0, 0, 0, 0, 0, 0, 0x2_0000_0FFF], [],
      VmMemory.Mem(ro, ZeroBytes(64 * 4096), ZeroBytes(32768), input), host, computeLimit)
  }

  /** What a run from there means: success is a halt with zero in R0. */
  ghost predicate Reports(o: Vm.Outcome, computeLimit: u64, success: bool, r0: u64, used: int) {
    && (success <==> o.Halt? && o.s.regs[0] == 0)
    && r0 == (if o.Halt? then o.s.regs[0] else 0)
    && used == computeLimit - o.s.remaining
  }

  /** Nothing that existed before is in the frame: the machine writes only to its
      own new stack and heap. */
  method RunProgram(prog: Vm.Prog, entry: u64, ro: array<byte>, input: array<byte>, computeLimit: u64, host: Vm.Host)
    returns (success: bool, r0: u64, used: u64)
    ensures Reports(Vm.Run(prog, StartState(entry, ro[..], input[..], computeLimit, host)), computeLimit,
      success, r0, used)
  {
    var vm := new Interpreter.Machine(prog, entry, ro, input, 32 * 1024, computeLimit, host);
    ghost var start := vm.At(VmIsa.Signed64(entry), Vm.START_REGS);
    assert start == StartState(entry, ro[..], input[..], computeLimit, host);
    var st, r, o := vm.Run();
    RunUses(prog, start);
    success, r0, used := st == Interpreter.Done && r == 0, r, computeLimit - vm.remaining;
  }

  lemma {:induction false} RunUses(p: Vm.Prog, s: Vm.State)
    ensures Vm.Run(p, s).s.remaining <= s.remaining
    decreases s.remaining
  {
    VmRuns.RunGoesOn(p, s, Vm.Step(p, s));
    VmRuns.NeverRefunds(p, s);
    if Vm.Step(p, s).Next? {
      VmRuns.StepLowers(p, s);
      RunUses(p, Vm.Step(p, s).s);
    }
  }

  /** One instruction: lay out, run, read back. Its data is limited; success, return value
      and units used are those of the machine's run on the laid-out accounts. The machine
      cannot write to its input, so whatever the program and its system calls do, every
      account comes back as it was and none is reported as modified. */
  method ExecuteInstruction(prog: Vm.Prog, entry: u64, ro: array<byte>, program: Pubkey, accs: seq<AccountInfo>,
                            ghost vals: seq<Acct>, data: seq<byte>, computeLimit: u64, host: Vm.Host)
    returns (r: Result<ExecutionResult, ExecutionError>)
    requires Shows(accs, vals) && |Input(program, vals, data)| < 0x8000_0000_0000_0000
    modifies accs`originalData, accs`originalLamports, accs`lamports, accs`data, accs`rentEpoch,
      set a | a in accs :: a.data
    ensures Shows(accs, vals)
    ensures r.Err? <==> |data| > 10240
    ensures r.Ok? ==> r.value.modified == []
    ensures r.Ok? ==>
      Reports(Vm.Run(prog, StartState(entry, old(ro[..]), Input(program, vals, data), computeLimit, host)),
        computeLimit, r.value.success, r.value.returnValue, r.value.unitsUsed)
  {
    if |data| > MAX_INSTRUCTION_DATA { return Err(InstructionTooLarge); }
    var modified := [];
    var input := SerializeInput(program, accs, vals, data);
    var success, r0, used := RunProgram(prog, entry, ro, input, computeLimit, host);
    if success {
      success, modified := ReadBack(input, program, accs, vals, data);
    }
    return Ok(ExecutionResult(success, r0, used, modified));
  }

  method ReadBack(input: array<byte>, ghost program: Pubkey, accs: seq<AccountInfo>, ghost vals: seq<Acct>,
      ghost data: seq<byte>)
    returns (good: bool, modified: seq<Pubkey>)
    requires Shows(accs, vals) && AllMarked(accs, vals)
    requires Apart(accs, input)
    requires input[..] == Input(program, vals, data) && input.Length < 0x8000_0000_0000_0000
    modifies accs`lamports, accs`data, accs`rentEpoch, set a | a in accs :: a.data
    ensures good && Shows(accs, vals) && modified == []
  {
    UntouchedInput(program, vals, data);
    good := RestoreUntouched(input, accs, vals);
    NoneModified(accs);
    modified := FindModifiedAccounts(accs);
  }

  /** A buffer that holds what the accounts hold leaves them marked as unmodified. */
  method RestoreUntouched(input: array<byte>, accs: seq<AccountInfo>, ghost vals: seq<Acct>) returns (good: bool)
    requires Shows(accs, vals) && AllMarked(accs, vals) && Apart(accs, input)
    requires Restore(input[..], 8, vals) == (vals, Good)
    modifies accs`lamports, accs`data, accs`rentEpoch, set a | a in accs :: a.data
    ensures good && Shows(accs, vals) && forall a :: a in accs ==> a.Marked()
  {
    var v, after := DeserializeOutput(input, accs, vals);
    StillMarked(accs, vals);
    good := v == Good;
  }

  lemma StillMarked(accs: seq<AccountInfo>, vals: seq<Acct>)
    requires Shows(accs, vals) && AllMarked(accs, vals)
    ensures forall a :: a in accs ==> a.Marked()
  {
    forall a | a in accs ensures a.Marked() {
      var i :| 0 <= i < |accs| && accs[i] == a;
      assert accs[i].Val() == vals[i];
    }
  }
}
