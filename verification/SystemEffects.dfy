/** What each System Program instruction asks for and achieves
    (pkg/svm/programs/system/system.go): for the bytes of an instruction and the accounts
    it names, exactly when it succeeds, what every account then is, and what an error
    says. Numbers and keys stand at fixed places in the bytes. */
module SystemEffects {
  import opened Bytes
  import opened ExecAccount
  import opened System

  // ------------------------------------------------------------------- vocabulary

  /** The instruction bytes start with this tag. */
  predicate Tagged(data: seq<byte>, tag: byte) {
    |data| >= 4 && data[..4] == [tag, 0, 0, 0]
  }

  lemma TagIs(data: seq<byte>, tag: byte)
    requires Tagged(data, tag)
    ensures Read4(data[..4]) == tag
  {
    SmallLE(tag);
    LE4(tag);
  }

  lemma SmallLE(tag: byte)
    ensures LE(tag, 4) == [tag, 0, 0, 0]
  {
    assert LE(tag, 4) == [tag] + LE(0, 3) && LE(0, 3) == [0] + LE(0, 2) && LE(0, 2) == [0] + LE(0, 1);
    assert LE(0, 1) == [0] + LE(0, 0);
  }

  /** A four-byte field holds one exactly when it is the bytes 1, 0, 0, 0. */
  lemma OneIs(field: seq<byte>)
    requires |field| == 4
    ensures Read4(field) == 1 <==> field == [1, 0, 0, 0]
  {
    if field == [1, 0, 0, 0] { SmallLE(1); LE4(1); }
    if Read4(field) == 1 { SmallReads(field, 1); }
  }

  lemma SmallReads(field: seq<byte>, v: byte)
    requires |field| == 4 && UnLE(field) == v
    ensures field == [v, 0, 0, 0]
  {
    assert UnLE(field) == field[0] + 256 * UnLE(field[1..]);
    assert UnLE(field[1..]) == 0;
    ZeroReads(field[1..]);
    assert field[1] == field[1..][0] && field[2] == field[1..][1] && field[3] == field[1..][2];
  }

  lemma {:induction false} ZeroReads(field: seq<byte>)
    requires UnLE(field) == 0
    ensures forall k :: 0 <= k < |field| ==> field[k] == 0
  {
    if field != [] {
      ZeroReads(field[1..]);
      forall k | 0 <= k < |field| ensures field[k] == 0 { if k > 0 { assert field[k] == field[1..][k - 1]; } }
    }
  }

  /** A new account: nothing of it has been used. */
  predicate Unused(a: Acct) {
    a.owner == ZeroBytes(32) && a.data == [] && a.lamports == 0
  }

  /** All accounts are as before, except that n lamports have gone from i to j. */
  ghost predicate Moved(s: Accts, t: Accts, i: nat, j: nat, n: nat) {
    && |t| == |s|
    && forall k :: 0 <= k < |s| ==>
      && t[k] == s[k].(lamports := t[k].lamports)
      && t[k].lamports == s[k].lamports - (if k == i then n else 0) + (if k == j then n else 0)
  }

  /** Account j is created with n lamports from account i; the others are as before. */
  ghost predicate Created(s: Accts, t: Accts, i: nat, j: nat, n: u64, space: nat, owner: Pubkey)
    requires i < |s| && j < |s|
  {
    && |t| == |s|
    && t[j] == s[j].(lamports := n, data := t[j].data, owner := owner)
    && |t[j].data| == space && (forall k :: 0 <= k < space ==> t[j].data[k] == 0)
    && (i != j ==> t[i] == s[i].(lamports := t[i].lamports) && t[i].lamports == s[i].lamports - n)
    && forall k :: 0 <= k < |s| && k != i && k != j ==> t[k] == s[k]
  }

  /** At least n bytes: the old ones and then zeros. */
  ghost predicate Extended(was: seq<byte>, now: seq<byte>, n: nat) {
    && |now| == (if |was| < n then n else |was|)
    && now[..|was|] == was && forall k :: |was| <= k < |now| ==> now[k] == 0
  }

  /** The bytes from a to b are these; all others are as before. */
  ghost predicate Rewritten(was: seq<byte>, now: seq<byte>, a: nat, b: nat, bytes: seq<byte>) {
    && a <= b <= |was| == |now|
    && now[..a] == was[..a] && now[a..b] == bytes && now[b..] == was[b..]
  }

  /** A seed of at most 32 bytes at offset o, framed by its eight-byte length; n bytes
      follow. */
  predicate SeedAt(d: seq<byte>, o: nat, n: nat) {
    |d| >= o + 8 && Read8(d[o..o + 8]) <= 32 && |d| >= o + 8 + Read8(d[o..o + 8]) + n
  }

  function Seed(d: seq<byte>, o: nat): (seed: seq<byte>)
    requires SeedAt(d, o, 0)
  {
    d[o + 8..o + 8 + Read8(d[o..o + 8])]
  }

  // --------------------------------------------------------------- plain accounts

  /** The payer has the lamports, and the payee's balance stays a 64-bit number. */
  predicate Affords(a: Acct, b: Acct, n: nat) {
    a.lamports >= n && b.lamports + n < 0x1_0000_0000_0000_0000
  }

  predicate MayAllocate(a: Acct, space: nat) {
    a.isSigner && a.owner == ZeroBytes(32) && |a.data| <= space
  }

  /** What CreateAccount asks of funder and new account. */
  predicate MayCreate(e: Env, a: Acct, b: Acct, n: u64, space: u64) {
    space <= 10485760 && a.isSigner && b.isSigner && a.lamports >= n && Unused(b) && n >= e.rent(space)
  }

  lemma CreateExactly(e: Env, s: Accts, idx: seq<nat>, n: u64, space: u64, owner: Pubkey)
    requires InRange(idx, |s|)
    ensures var r := ExecCreate(e, s, idx, n, space, owner);
      && (r.Ok? <==> |idx| >= 2 && MayCreate(e, s[idx[0]], s[idx[1]], n, space))
      && (r.Ok? ==> Created(s, r.value, idx[0], idx[1], n, space, owner))
      && (r.Err? ==> CreateBlames(e, s, idx, n, space, r.error))
  {
  }

  predicate CreateBlames(e: Env, s: Accts, idx: seq<nat>, n: u64, space: u64, error: Error)
    requires InRange(idx, |s|)
  {
    match error
    case DataTooLarge => space > 10485760
    case NotEnoughKeys => |idx| < 2
    case MissingSignature => |idx| >= 2 && (!s[idx[0]].isSigner || !s[idx[1]].isSigner)
    case InsufficientFunds => |idx| >= 2 && s[idx[0]].lamports < n
    case AlreadyInUse => |idx| >= 2 && !Unused(s[idx[1]])
    case NotRentExempt => n < e.rent(space)
    case _ => false
  }

  /** CreateAccount: lamports, space and owner. */
  lemma CreateAccount(e: Env, s: Accts, idx: seq<nat>, data: seq<byte>)
    requires InRange(idx, |s|) && Tagged(data, 0)
    ensures var (r, d) := (Process(e, s, idx, data), data[4..]);
      if |d| < 48 then r == Err(InvalidInstructionData)
      else var (n, space, owner) := (Read8(d[0..8]), Read8(d[8..16]), d[16..48]);
        && (r.Ok? <==> |idx| >= 2 && MayCreate(e, s[idx[0]], s[idx[1]], n, space))
        && (r.Ok? ==> Created(s, r.value, idx[0], idx[1], n, space, owner))
        && (r.Err? ==> CreateBlames(e, s, idx, n, space, r.error))
  {
    TagIs(data, 0);
    var d := data[4..];
    if |d| >= 48 { CreateExactly(e, s, idx, Read8(d[0..8]), Read8(d[8..16]), d[16..48]); }
  }

  /** Assign: an account of the System Program that signs gets the owner. */
  lemma Assign(e: Env, s: Accts, idx: seq<nat>, data: seq<byte>)
    requires InRange(idx, |s|) && Tagged(data, 1)
    ensures var (r, d) := (Process(e, s, idx, data), data[4..]);
      if |d| < 32 then r == Err(InvalidInstructionData)
      else if |idx| < 1 then r == Err(NotEnoughKeys)
      else var (i, a) := (idx[0], s[idx[0]]);
        && (r.Ok? <==> a.isSigner && a.owner == ZeroBytes(32))
        && (r.Ok? ==> r.value == s[i := a.(owner := d[0..32])])
        && (r == Err(MissingSignature) ==> !a.isSigner) && (r == Err(InvalidOwner) ==> a.owner != ZeroBytes(32))
        && (r.Err? ==> r.error == MissingSignature || r.error == InvalidOwner)
  {
    TagIs(data, 1);
  }

  /** Transfer: a signer pays; both ends can be written. */
  lemma Transfer(e: Env, s: Accts, idx: seq<nat>, data: seq<byte>)
    requires InRange(idx, |s|) && Tagged(data, 2)
    ensures var (r, d) := (Process(e, s, idx, data), data[4..]);
      if |d| < 8 then r == Err(InvalidInstructionData)
      else if |idx| < 2 then r == Err(NotEnoughKeys)
      else var (n, a, b) := (Read8(d[0..8]), s[idx[0]], s[idx[1]]);
        && (r.Ok? <==> a.isSigner && a.isWritable && b.isWritable && Affords(a, b, n))
        && (r.Ok? ==> Moved(s, r.value, idx[0], idx[1], n))
        && (r.Err? ==> match r.error
              case MissingSignature => !a.isSigner
              case NotWritable => !a.isWritable || !b.isWritable
              case InsufficientFunds => a.lamports < n
              case LamportOverflow => b.lamports + n >= 0x1_0000_0000_0000_0000
              case _ => false)
  {
    TagIs(data, 2);
  }

  /** Allocate: an account of the System Program that signs gets the space, which holds
      its old data and then zeros. */
  lemma Allocate(e: Env, s: Accts, idx: seq<nat>, data: seq<byte>)
    requires InRange(idx, |s|) && Tagged(data, 8)
    ensures var (r, d) := (Process(e, s, idx, data), data[4..]);
      if |d| < 8 then r == Err(InvalidInstructionData)
      else var space := Read8(d[0..8]);
        && (r.Ok? <==> space <= 10485760 && |idx| >= 1 && MayAllocate(s[idx[0]], space))
        && (r.Ok? ==> var (i, a, t) := (idx[0], s[idx[0]], r.value);
              && |t| == |s| && t == s[i := a.(data := t[i].data)]
              && |t[i].data| == space && Extended(a.data, t[i].data, space))
        && (r.Err? ==> match r.error
              case DataTooLarge => space > 10485760
              case NotEnoughKeys => |idx| < 1
              case MissingSignature => |idx| >= 1 && !s[idx[0]].isSigner
              case InvalidOwner => |idx| >= 1 && s[idx[0]].owner != ZeroBytes(32)
              case DataTooSmall => |idx| >= 1 && |s[idx[0]].data| > space
              case _ => false)
  {
    TagIs(data, 8);
  }

  // -------------------------------------------------------------- derived accounts

  /** A System Program account at the derived address. */
  predicate IsDerived(a: Acct, address: Pubkey) {
    a.key == address && a.owner == ZeroBytes(32)
  }

  predicate MayCreateSeeded(e: Env, a: Acct, b: Acct, address: Pubkey, n: u64, space: u64) {
    space <= 10485760 && a.isSigner && a.lamports >= n && Unused(b) && b.key == address && n >= e.rent(space)
  }

  lemma CreateSeededExactly(e: Env, s: Accts, idx: seq<nat>, base: Pubkey, seed: seq<byte>, n: u64, space: u64,
      owner: Pubkey)
    requires InRange(idx, |s|)
    ensures var r := ExecCreateSeed(e, s, idx, base, seed, n, space, owner);
      && (r.Ok? <==> |idx| >= 2 && MayCreateSeeded(e, s[idx[0]], s[idx[1]], e.sha(base + seed + owner), n, space))
      && (r.Ok? ==> Created(s, r.value, idx[0], idx[1], n, space, owner))
      && (r.Err? ==> match r.error
            case SeedMismatch => |idx| >= 2 && s[idx[1]].key != e.sha(base + seed + owner)
            case MissingSignature => |idx| >= 2 && !s[idx[0]].isSigner
            case _ => CreateBlames(e, s, idx, n, space, r.error))
  {
  }

  /** CreateAccountWithSeed: base, seed, lamports, space and owner; the address of the new
      account is the hash of base, seed and owner, and it need not sign. */
  lemma CreateAccountWithSeed(e: Env, s: Accts, idx: seq<nat>, data: seq<byte>)
    requires InRange(idx, |s|) && Tagged(data, 3) && SeedAt(data[4..], 32, 48)
    ensures var (r, d) := (Process(e, s, idx, data), data[4..]);
      var seed := Seed(d, 32);
      var o := 40 + |seed|;
      var (n, space, owner) := (Read8(d[o..o + 8]), Read8(d[o + 8..o + 16]), d[o + 16..o + 48]);
      && (r.Ok? <==> |idx| >= 2 && MayCreateSeeded(e, s[idx[0]], s[idx[1]], e.sha(d[..32] + seed + owner), n, space))
      && (r.Ok? ==> Created(s, r.value, idx[0], idx[1], n, space, owner))
      && (r.Err? ==> match r.error
            case SeedMismatch => |idx| >= 2 && s[idx[1]].key != e.sha(d[..32] + seed + owner)
            case MissingSignature => |idx| >= 2 && !s[idx[0]].isSigner
            case _ => CreateBlames(e, s, idx, n, space, r.error))
  {
    TagIs(data, 3);
    var d := data[4..];
    var seed := Seed(d, 32);
    var o := 40 + |seed|;
    assert ParseCreateWithSeed(d)
      == Ok(Instr.CreateWithSeed(d[..32], seed, Read8(d[o..o + 8]), Read8(d[o + 8..o + 16]), d[o + 16..o + 48]));
    CreateSeededExactly(e, s, idx, d[..32], seed, Read8(d[o..o + 8]), Read8(d[o + 8..o + 16]), d[o + 16..o + 48]);
  }

  /** AllocateWithSeed: base, seed, space and owner; a System Program account at that
      address gets the space and the owner. */
  lemma AllocateWithSeed(e: Env, s: Accts, idx: seq<nat>, data: seq<byte>)
    requires InRange(idx, |s|) && Tagged(data, 9) && SeedAt(data[4..], 32, 40)
    ensures var (r, d) := (Process(e, s, idx, data), data[4..]);
      var seed := Seed(d, 32);
      var o := 40 + |seed|;
      var (space, owner) := (Read8(d[o..o + 8]), d[o + 8..o + 40]);
      && (r.Ok? <==> space <= 10485760 && |idx| >= 1 && IsDerived(s[idx[0]], e.sha(d[..32] + seed + owner)))
      && (r.Ok? ==> var (i, a, t) := (idx[0], s[idx[0]], r.value);
            && |t| == |s| && t == s[i := a.(data := t[i].data, owner := owner)]
            && Extended(a.data, t[i].data, space))
      && (r.Err? ==> match r.error
            case DataTooLarge => space > 10485760
            case NotEnoughKeys => |idx| < 1
            case SeedMismatch => |idx| >= 1 && s[idx[0]].key != e.sha(d[..32] + seed + owner)
            case InvalidOwner => |idx| >= 1 && s[idx[0]].owner != ZeroBytes(32)
            case _ => false)
  {
    TagIs(data, 9);
    var d := data[4..];
    var o := 40 + |Seed(d, 32)|;
    assert ParseAllocateWithSeed(d)
      == Ok(Instr.AllocateWithSeed(d[..32], Seed(d, 32), Read8(d[o..o + 8]), d[o + 8..o + 40]));
  }

  /** AssignWithSeed: base, seed and owner. */
  lemma AssignWithSeed(e: Env, s: Accts, idx: seq<nat>, data: seq<byte>)
    requires InRange(idx, |s|) && Tagged(data, 10) && SeedAt(data[4..], 32, 32)
    ensures var (r, d) := (Process(e, s, idx, data), data[4..]);
      var seed := Seed(d, 32);
      var o := 40 + |seed|;
      var owner := d[o..o + 32];
      if |idx| < 1 then r == Err(NotEnoughKeys)
      else var (i, a) := (idx[0], s[idx[0]]);
        && (r.Ok? <==> IsDerived(a, e.sha(d[..32] + seed + owner)))
        && (r.Ok? ==> r.value == s[i := a.(owner := owner)])
        && (r.Err? ==> match r.error
              case SeedMismatch => a.key != e.sha(d[..32] + seed + owner)
              case InvalidOwner => a.owner != ZeroBytes(32)
              case _ => false)
  {
    TagIs(data, 10);
    var d := data[4..];
    var o := 40 + |Seed(d, 32)|;
    var owner: Pubkey := d[o..o + 32];
    assert ParseAssignWithSeed(d) == Ok(Instr.AssignWithSeed(d[..32], Seed(d, 32), owner));
  }

  /** TransferWithSeed: lamports, seed and owner; the account derived from the second one
      pays the third, if the second signs. */
  lemma TransferWithSeed(e: Env, s: Accts, idx: seq<nat>, data: seq<byte>)
    requires InRange(idx, |s|) && Tagged(data, 11) && SeedAt(data[4..], 8, 32)
    ensures var (r, d) := (Process(e, s, idx, data), data[4..]);
      var seed := Seed(d, 8);
      var o := 16 + |seed|;
      var (n, owner) := (Read8(d[0..8]), d[o..o + 32]);
      if |idx| < 3 then r == Err(NotEnoughKeys)
      else var (a, base, b) := (s[idx[0]], s[idx[1]], s[idx[2]]);
        && (r.Ok? <==> base.isSigner && a.key == e.sha(base.key + seed + owner) && Affords(a, b, n))
        && (r.Ok? ==> Moved(s, r.value, idx[0], idx[2], n))
        && (r.Err? ==> match r.error
              case MissingSignature => !base.isSigner
              case SeedMismatch => a.key != e.sha(base.key + seed + owner)
              case InsufficientFunds => a.lamports < n
              case LamportOverflow => b.lamports + n >= 0x1_0000_0000_0000_0000
              case _ => false)
  {
    TagIs(data, 11);
    var d := data[4..];
    var o := 16 + |Seed(d, 8)|;
    assert ParseTransferWithSeed(d) == Ok(Instr.TransferWithSeed(Read8(d[0..8]), Seed(d, 8), d[o..o + 32]));
  }

  // ----------------------------------------------------------------- nonce accounts

  /** An initialized nonce account of this authority, which signs. */
  predicate NonceOf(a: Acct, authority: Acct) {
    && authority.isSigner && |a.data| >= 80 && a.data[4..8] == [1, 0, 0, 0] && a.data[8..40] == authority.key
  }

  predicate NonceBlames(a: Acct, authority: Acct, writable: bool, error: Error) {
    match error
    case MissingSignature => !authority.isSigner
    case NotWritable => !writable
    case NonceNotInitialized => |a.data| < 80 || a.data[4..8] != [1, 0, 0, 0]
    case NonceUnauthorized => |a.data| >= 80 && a.data[8..40] != authority.key
    case _ => false
  }

  predicate MayInitialize(e: Env, a: Acct) {
    && a.isWritable && a.owner == ZeroBytes(32)
    && |a.data| >= 80 && a.data[4..8] != [1, 0, 0, 0] && a.lamports >= e.rent(80)
  }

  predicate MayWithdraw(e: Env, a: Acct, b: Acct, authority: Acct, n: nat) {
    && a.isWritable && b.isWritable && NonceOf(a, authority) && Affords(a, b, n)
    && (a.lamports == n || a.lamports - n >= e.rent(80))
  }

  lemma RefusalExactly(a: Acct, authority: Acct, writable: bool)
    ensures var r := NonceRefusal(a, authority, writable);
      && (r.None? <==> writable && NonceOf(a, authority))
      && (r.Some? ==> NonceBlames(a, authority, writable, r.value))
  {
    if |a.data| >= 80 { OneIs(a.data[4..8]); }
  }

  lemma PutExactly(was: seq<byte>, off: nat, bytes: seq<byte>)
    requires off + |bytes| <= |was|
    ensures Rewritten(was, PutAt(was, off, bytes), off, off + |bytes|, bytes)
  {
  }

  /** InitializeNonce: a writable System Program account of 80 bytes or more and the rent
      for them becomes a nonce: version 1, state 1, authority, blockhash and fee. */
  lemma InitializeNonce(e: Env, s: Accts, idx: seq<nat>, data: seq<byte>)
    requires InRange(idx, |s|) && Tagged(data, 6)
    ensures var (r, d) := (Process(e, s, idx, data), data[4..]);
      if |d| < 32 then r == Err(InvalidInstructionData)
      else if |idx| < 1 then r == Err(NotEnoughKeys)
      else var (i, a) := (idx[0], s[idx[0]]);
        && (r.Ok? <==> MayInitialize(e, a))
        && (r.Ok? ==> var t := r.value;
              && |t| == |s| && t == s[i := a.(data := t[i].data)]
              && Rewritten(a.data, t[i].data, 0, 80,
                   [1, 0, 0, 0, 1, 0, 0, 0] + d[0..32] + e.blockhash + LE(e.fee, 8)))
        && (r.Err? ==> match r.error
              case NotWritable => !a.isWritable
              case InvalidOwner => a.owner != ZeroBytes(32)
              case NonceAlreadyInitialized => |a.data| >= 8 && a.data[4..8] == [1, 0, 0, 0]
              case DataTooSmall => |a.data| < 80
              case NotRentExempt => a.lamports < e.rent(80)
              case _ => false)
  {
    TagIs(data, 6);
    var d := data[4..];
    if |d| >= 32 && |idx| >= 1 {
      var a := s[idx[0]];
      if |a.data| >= 8 { OneIs(a.data[4..8]); }
      if |a.data| >= 80 { NewNonceExactly(a.data, d[0..32], e); }
      assert Process(e, s, idx, data) == ExecInitialize(e, s, idx, d[..32]);
    }
  }

  lemma NewNonceExactly(was: seq<byte>, authority: Pubkey, e: Env)
    requires |was| >= 80
    ensures Rewritten(was, NewNonce(was, authority, e), 0, 80,
      [1, 0, 0, 0, 1, 0, 0, 0] + authority + e.blockhash + LE(e.fee, 8))
  {
    SmallLE(1);
    var one := LE(1, 4);
    var d1 := PutAt(was, 0, one);
    var d2 := PutAt(d1, 4, one);
    var d3 := PutAt(d2, 8, authority);
    var d4 := PutAt(d3, 40, e.blockhash);
    PutExactly(was, 0, one);
    PutNext(was, d1, 0, 4, one, one);
    PutNext(was, d2, 0, 8, one + one, authority);
    PutNext(was, d3, 0, 40, one + one + authority, e.blockhash);
    PutNext(was, d4, 0, 72, one + one + authority + e.blockhash, LE(e.fee, 8));
    assert one + one == [1, 0, 0, 0, 1, 0, 0, 0];
  }

  /** Writing on behind what has been written. */
  lemma PutNext(was: seq<byte>, now: seq<byte>, a: nat, b: nat, bytes: seq<byte>, more: seq<byte>)
    requires Rewritten(was, now, a, b, bytes) && b + |more| <= |was|
    ensures Rewritten(was, PutAt(now, b, more), a, b + |more|, bytes + more)
  {
    var then_ := PutAt(now, b, more);
    assert then_[..a] == now[..a];
    assert then_[a..b + |more|] == now[a..b] + more;
    assert then_[b + |more|..] == now[b..][|more|..] == was[b..][|more|..] == was[b + |more|..];
  }

  /** AdvanceNonce: the stored blockhash, if it is not the current one, is replaced by it,
      with the current fee. */
  lemma AdvanceNonce(e: Env, s: Accts, idx: seq<nat>, data: seq<byte>)
    requires InRange(idx, |s|) && Tagged(data, 4)
    ensures var r := Process(e, s, idx, data);
      if |idx| < 3 then r == Err(NotEnoughKeys)
      else var (i, a, authority) := (idx[0], s[idx[0]], s[idx[2]]);
        && (r.Ok? <==> a.isWritable && NonceOf(a, authority) && a.data[40..72] != e.blockhash)
        && (r.Ok? ==> var t := r.value;
              && |t| == |s| && t == s[i := a.(data := t[i].data)]
              && Rewritten(a.data, t[i].data, 40, 80, e.blockhash + LE(e.fee, 8)))
        && (r.Err? ==> if r.error == NonceNotExpired then |a.data| >= 80 && a.data[40..72] == e.blockhash
                       else NonceBlames(a, authority, a.isWritable, r.error))
  {
    TagIs(data, 4);
    if |idx| >= 3 {
      var a := s[idx[0]];
      RefusalExactly(a, s[idx[2]], a.isWritable);
      if |a.data| >= 80 { AdvancedExactly(a.data, e); }
      assert Process(e, s, idx, data) == ExecAdvance(e, s, idx);
    }
  }

  lemma AdvancedExactly(was: seq<byte>, e: Env)
    requires |was| >= 80
    ensures Rewritten(was, Advanced(was, e), 40, 80, e.blockhash + LE(e.fee, 8))
  {
    PutExactly(was, 40, e.blockhash);
    PutNext(was, PutAt(was, 40, e.blockhash), 40, 72, e.blockhash, LE(e.fee, 8));
  }

  /** AuthorizeNonce: the authority is replaced. */
  lemma AuthorizeNonce(e: Env, s: Accts, idx: seq<nat>, data: seq<byte>)
    requires InRange(idx, |s|) && Tagged(data, 7)
    ensures var (r, d) := (Process(e, s, idx, data), data[4..]);
      if |d| < 32 then r == Err(InvalidInstructionData)
      else if |idx| < 2 then r == Err(NotEnoughKeys)
      else var (i, a, authority) := (idx[0], s[idx[0]], s[idx[1]]);
        && (r.Ok? <==> a.isWritable && NonceOf(a, authority))
        && (r.Ok? ==> var t := r.value;
              && |t| == |s| && t == s[i := a.(data := t[i].data)] && Rewritten(a.data, t[i].data, 8, 40, d[0..32]))
        && (r.Err? ==> NonceBlames(a, authority, a.isWritable, r.error))
  {
    TagIs(data, 7);
    var d := data[4..];
    if |d| >= 32 && |idx| >= 2 {
      var a := s[idx[0]];
      RefusalExactly(a, s[idx[1]], a.isWritable);
      if |a.data| >= 80 { PutExactly(a.data, 8, d[..32]); }
      assert Process(e, s, idx, data) == ExecAuthorize(s, idx, d[..32]);
    }
  }

  /** WithdrawNonce: lamports leave a nonce account for another, all of them or so many
      that the rent for 80 bytes stays; an emptied account is no nonce any more. */
  lemma WithdrawNonce(e: Env, s: Accts, idx: seq<nat>, data: seq<byte>)
    requires InRange(idx, |s|) && Tagged(data, 5)
    ensures var (r, d) := (Process(e, s, idx, data), data[4..]);
      if |d| < 8 then r == Err(InvalidInstructionData)
      else if |idx| < 5 then r == Err(NotEnoughKeys)
      else var (n, i, a, b, authority) := (Read8(d[0..8]), idx[0], s[idx[0]], s[idx[1]], s[idx[4]]);
        && (r.Ok? <==> MayWithdraw(e, a, b, authority, n))
        && (r.Ok? ==> var t := r.value;
              && |t| == |s|
              && (if t[i].lamports == 0 then Rewritten(a.data, t[i].data, 4, 8, [0, 0, 0, 0]) else t[i].data == a.data)
              && Moved(s, t[i := t[i].(data := a.data)], i, idx[1], n))
        && (r.Err? ==> match r.error
              case InsufficientFunds => a.lamports < n
              case NotRentExempt => 0 < a.lamports - n < e.rent(80)
              case LamportOverflow => b.lamports + n >= 0x1_0000_0000_0000_0000
              case _ => NonceBlames(a, authority, a.isWritable && b.isWritable, r.error))
  {
    TagIs(data, 5);
    var d := data[4..];
    if |d| >= 8 && |idx| >= 5 {
      RefusalExactly(s[idx[0]], s[idx[4]], s[idx[0]].isWritable && s[idx[1]].isWritable);
      assert Process(e, s, idx, data) == ExecWithdraw(e, s, idx, Read8(d[..8]));
      if ExecWithdraw(e, s, idx, Read8(d[..8])).Ok? { WithdrawExactly(e, s, idx, Read8(d[..8])); }
    }
  }

  lemma WithdrawExactly(e: Env, s: Accts, idx: seq<nat>, n: u64)
    requires InRange(idx, |s|) && |idx| >= 5 && ExecWithdraw(e, s, idx, n).Ok?
    ensures var (i, a, t) := (idx[0], s[idx[0]], ExecWithdraw(e, s, idx, n).value);
      && |t| == |s| && |a.data| >= 80
      && (if t[i].lamports == 0 then Rewritten(a.data, t[i].data, 4, 8, [0, 0, 0, 0]) else t[i].data == a.data)
      && Moved(s, t[i := t[i].(data := a.data)], i, idx[1], n)
  {
    SmallLE(0);
    PutExactly(s[idx[0]].data, 4, [0, 0, 0, 0]);
  }

  // ------------------------------------------------------------- nothing else succeeds

  /** The twelve instructions are all there are, */
  lemma UnknownTag(e: Env, s: Accts, idx: seq<nat>, data: seq<byte>)
    requires InRange(idx, |s|) && forall tag: byte :: Tagged(data, tag) ==> tag > 11
    ensures Process(e, s, idx, data) == Err(InvalidInstructionData)
  {
    if |data| >= 4 && Read4(data[..4]) <= 11 {
      SmallReads(data[..4], Read4(data[..4]));
      assert Tagged(data, Read4(data[..4]));
    }
  }

  /** and the four with a seed need a seed of at most 32 bytes and what follows it. */
  lemma BadSeed(e: Env, s: Accts, idx: seq<nat>, data: seq<byte>)
    requires InRange(idx, |s|)
    requires
      || (Tagged(data, 3) && !SeedAt(data[4..], 32, 48)) || (Tagged(data, 9) && !SeedAt(data[4..], 32, 40))
      || (Tagged(data, 10) && !SeedAt(data[4..], 32, 32)) || (Tagged(data, 11) && !SeedAt(data[4..], 8, 32))
    ensures var r := Process(e, s, idx, data); r == Err(InvalidInstructionData) || r == Err(InvalidSeed)
  {
    TagIs(data, data[0]);
  }
}
