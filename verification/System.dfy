/** The System Program (pkg/svm/programs/system/system.go): what each instruction
    does to the accounts of a transaction, as a function. The accounts an
    instruction names are positions in that list, and positions may repeat. */
module System {
  import opened Bytes
  import opened ExecAccount

  const PROGRAM_ID: Pubkey := ZERO_HASH
  const NONCE_SIZE: int := 80
  const MAX_U64: int := 0xFFFF_FFFF_FFFF_FFFF

  datatype Error =
    | InvalidInstructionData | InsufficientFunds | AlreadyInUse | NotEnoughKeys | InvalidOwner
    | NotRentExempt | MissingSignature | DataTooSmall | DataTooLarge | InvalidSeed
    | NonceNotInitialized | NonceAlreadyInitialized | NonceNotExpired | NonceUnauthorized
    | NotWritable | LamportOverflow | SeedMismatch

  /** What the invoking transaction provides. */
  datatype Env = Env(sha: Sha, rent: u64 -> u64, blockhash: Hash, fee: u64)

  datatype Instr =
    | CreateAccount(lamports: u64, space: u64, owner: Pubkey)
    | Assign(owner: Pubkey)
    | Transfer(lamports: u64)
    | CreateWithSeed(base: Pubkey, seed: seq<byte>, lamports: u64, space: u64, owner: Pubkey)
    | AdvanceNonce
    | WithdrawNonce(lamports: u64)
    | InitializeNonce(authority: Pubkey)
    | AuthorizeNonce(authority: Pubkey)
    | Allocate(space: u64)
    | AllocateWithSeed(base: Pubkey, seed: seq<byte>, space: u64, owner: Pubkey)
    | AssignWithSeed(base: Pubkey, seed: seq<byte>, owner: Pubkey)
    | TransferWithSeed(lamports: u64, seed: seq<byte>, owner: Pubkey)

  // ------------------------------------------------------------------ parsing

  function Parse(data: seq<byte>): Result<Instr, Error> {
    if |data| < 4 then Err(InvalidInstructionData) else
    var tag, d := Read4(data[..4]), data[4..];
    if tag == 0 then
      if |d| < 48 then Err(InvalidInstructionData)
      else Ok(CreateAccount(Read8(d[..8]), Read8(d[8..16]), d[16..48]))
    else if tag == 1 then if |d| < 32 then Err(InvalidInstructionData) else Ok(Assign(d[..32]))
    else if tag == 2 then if |d| < 8 then Err(InvalidInstructionData) else Ok(Transfer(Read8(d[..8])))
    else if tag == 3 then ParseCreateWithSeed(d)
    else if tag == 4 then Ok(AdvanceNonce)
    else if tag == 5 then if |d| < 8 then Err(InvalidInstructionData) else Ok(WithdrawNonce(Read8(d[..8])))
    else if tag == 6 then if |d| < 32 then Err(InvalidInstructionData) else Ok(InitializeNonce(d[..32]))
    else if tag == 7 then if |d| < 32 then Err(InvalidInstructionData) else Ok(AuthorizeNonce(d[..32]))
    else if tag == 8 then if |d| < 8 then Err(InvalidInstructionData) else Ok(Allocate(Read8(d[..8])))
    else if tag == 9 then ParseAllocateWithSeed(d)
    else if tag == 10 then ParseAssignWithSeed(d)
    else if tag == 11 then ParseTransferWithSeed(d)
    else Err(InvalidInstructionData)
  }

  function ParseCreateWithSeed(d: seq<byte>): Result<Instr, Error> {
    if |d| < 48 then Err(InvalidInstructionData) else
    var n := Read8(d[32..40]);
    if n > 32 || |d| < 48 + n then Err(InvalidSeed) else
    var o := 40 + n;
    if |d| < o + 48 then Err(InvalidInstructionData)
    else Ok(CreateWithSeed(d[..32], d[40..o], Read8(d[o..o + 8]), Read8(d[o + 8..o + 16]), d[o + 16..o + 48]))
  }

  function ParseAllocateWithSeed(d: seq<byte>): Result<Instr, Error> {
    if |d| < 48 then Err(InvalidInstructionData) else
    var n := Read8(d[32..40]);
    if n > 32 || |d| < 48 + n then Err(InvalidSeed) else
    var o := 40 + n;
    if |d| < o + 40 then Err(InvalidInstructionData)
    else Ok(AllocateWithSeed(d[..32], d[40..o], Read8(d[o..o + 8]), d[o + 8..o + 40]))
  }

  function ParseAssignWithSeed(d: seq<byte>): Result<Instr, Error> {
    if |d| < 40 then Err(InvalidInstructionData) else
    var n := Read8(d[32..40]);
    if n > 32 || |d| < 72 + n then Err(InvalidSeed)
    else Ok(AssignWithSeed(d[..32], d[40..40 + n], d[40 + n..72 + n]))
  }

  function ParseTransferWithSeed(d: seq<byte>): Result<Instr, Error> {
    if |d| < 16 then Err(InvalidInstructionData) else
    var n := Read8(d[8..16]);
    if n > 32 || |d| < 48 + n then Err(InvalidSeed)
    else Ok(TransferWithSeed(Read8(d[..8]), d[16..16 + n], d[16 + n..48 + n]))
  }

  function SeedAddress(sha: Sha, base: Pubkey, seed: seq<byte>, owner: Pubkey): Pubkey {
    sha(base + seed + owner)
  }

  // ------------------------------------------------------------------- effects

  type Accts = seq<Acct>

  ghost predicate InRange(idx: seq<nat>, n: nat) {
    forall i :: 0 <= i < |idx| ==> idx[i] < n
  }

  function Move(s: Accts, i: nat, j: nat, n: u64): Accts
    requires i < |s| && j < |s| && n <= s[i].lamports && s[j].lamports + n <= MAX_U64
  {
    var t := s[i := s[i].(lamports := s[i].lamports - n)];
    t[j := t[j].(lamports := t[j].lamports + n)]
  }

  function Fund(s: Accts, i: nat, j: nat, n: u64, space: nat, owner: Pubkey): Accts
    requires i < |s| && j < |s| && n <= s[i].lamports
  {
    var t := s[i := s[i].(lamports := s[i].lamports - n)];
    t[j := t[j].(lamports := n, data := ZeroBytes(space), owner := owner)]
  }

  function Grow(data: seq<byte>, space: nat): seq<byte> {
    if |data| < space then data + ZeroBytes(space - |data|) else data
  }

  function PutAt(data: seq<byte>, off: nat, bytes: seq<byte>): (d: seq<byte>)
    requires off + |bytes| <= |data|
    ensures |d| == |data|
  {
    data[..off] + bytes + data[off + |bytes|..]
  }

  function NonceState(data: seq<byte>): u32
    requires |data| >= 8
  {
    Read4(data[4..8])
  }

  function NewNonce(data: seq<byte>, authority: Pubkey, e: Env): seq<byte>
    requires |data| >= NONCE_SIZE
  {
    PutAt(PutAt(PutAt(PutAt(PutAt(data, 0, LE(1, 4)), 4, LE(1, 4)), 8, authority), 40, e.blockhash), 72, LE(e.fee, 8))
  }

  function Advanced(data: seq<byte>, e: Env): seq<byte>
    requires |data| >= NONCE_SIZE
  {
    PutAt(PutAt(data, 40, e.blockhash), 72, LE(e.fee, 8))
  }

  // --------------------------------------------------------------- instructions

  /** Runs one parsed instruction: the accounts after it, or why it was refused
      (and then nothing has changed). */
  function Exec(e: Env, s: Accts, idx: seq<nat>, op: Instr): (r: Result<Accts, Error>)
    requires InRange(idx, |s|)
  {
    match op
    case CreateAccount(n, space, owner) => ExecCreate(e, s, idx, n, space, owner)
    case Assign(owner) => ExecAssign(s, idx, owner)
    case Transfer(n) => ExecTransfer(s, idx, n)
    case CreateWithSeed(base, seed, n, space, owner) => ExecCreateSeed(e, s, idx, base, seed, n, space, owner)
    case AdvanceNonce => ExecAdvance(e, s, idx)
    case WithdrawNonce(n) => ExecWithdraw(e, s, idx, n)
    case InitializeNonce(a) => ExecInitialize(e, s, idx, a)
    case AuthorizeNonce(a) => ExecAuthorize(s, idx, a)
    case Allocate(space) => ExecAllocate(s, idx, space)
    case AllocateWithSeed(base, seed, space, owner) => ExecAllocateSeed(e, s, idx, base, seed, space, owner)
    case AssignWithSeed(base, seed, owner) => ExecAssignSeed(e, s, idx, base, seed, owner)
    case TransferWithSeed(n, seed, owner) => ExecTransferSeed(e, s, idx, n, seed, owner)
  }

  predicate InUse(a: Acct) {
    a.owner != PROGRAM_ID || |a.data| > 0 || a.lamports > 0
  }

  function ExecCreate(e: Env, s: Accts, idx: seq<nat>, n: u64, space: u64, owner: Pubkey): Result<Accts, Error>
    requires InRange(idx, |s|)
  {
    if space > MAX_DATA then Err(DataTooLarge)
    else if |idx| < 2 then Err(NotEnoughKeys)
    else if !s[idx[0]].isSigner || !s[idx[1]].isSigner then Err(MissingSignature)
    else if s[idx[0]].lamports < n then Err(InsufficientFunds)
    else if InUse(s[idx[1]]) then Err(AlreadyInUse)
    else if n < e.rent(space) then Err(NotRentExempt)
    else Ok(Fund(s, idx[0], idx[1], n, space, owner))
  }

  function ExecCreateSeed(e: Env, s: Accts, idx: seq<nat>, base: Pubkey, seed: seq<byte>, n: u64, space: u64,
      owner: Pubkey): Result<Accts, Error>
    requires InRange(idx, |s|)
  {
    if space > MAX_DATA then Err(DataTooLarge)
    else if |idx| < 2 then Err(NotEnoughKeys)
    else if !s[idx[0]].isSigner then Err(MissingSignature)
    else if s[idx[0]].lamports < n then Err(InsufficientFunds)
    else if InUse(s[idx[1]]) then Err(AlreadyInUse)
    else if SeedAddress(e.sha, base, seed, owner) != s[idx[1]].key then Err(SeedMismatch)
    else if n < e.rent(space) then Err(NotRentExempt)
    else Ok(Fund(s, idx[0], idx[1], n, space, owner))
  }

  function ExecAssign(s: Accts, idx: seq<nat>, owner: Pubkey): Result<Accts, Error>
    requires InRange(idx, |s|)
  {
    if |idx| < 1 then Err(NotEnoughKeys)
    else if !s[idx[0]].isSigner then Err(MissingSignature)
    else if s[idx[0]].owner != PROGRAM_ID then Err(InvalidOwner)
    else Ok(s[idx[0] := s[idx[0]].(owner := owner)])
  }

  function ExecTransfer(s: Accts, idx: seq<nat>, n: u64): Result<Accts, Error>
    requires InRange(idx, |s|)
  {
    if |idx| < 2 then Err(NotEnoughKeys)
    else if !s[idx[0]].isSigner then Err(MissingSignature)
    else if !s[idx[0]].isWritable || !s[idx[1]].isWritable then Err(NotWritable)
    else if s[idx[0]].lamports < n then Err(InsufficientFunds)
    else if s[idx[1]].lamports > MAX_U64 - n then Err(LamportOverflow)
    else Ok(Move(s, idx[0], idx[1], n))
  }

  function ExecAllocate(s: Accts, idx: seq<nat>, space: u64): Result<Accts, Error>
    requires InRange(idx, |s|)
  {
    if space > MAX_DATA then Err(DataTooLarge)
    else if |idx| < 1 then Err(NotEnoughKeys)
    else if !s[idx[0]].isSigner then Err(MissingSignature)
    else if s[idx[0]].owner != PROGRAM_ID then Err(InvalidOwner)
    else if |s[idx[0]].data| > space then Err(DataTooSmall)
    else Ok(s[idx[0] := s[idx[0]].(data := Grow(s[idx[0]].data, space))])
  }

  function ExecAllocateSeed(e: Env, s: Accts, idx: seq<nat>, base: Pubkey, seed: seq<byte>, space: u64, owner: Pubkey):
    Result<Accts, Error>
    requires InRange(idx, |s|)
  {
    if space > MAX_DATA then Err(DataTooLarge)
    else if |idx| < 1 then Err(NotEnoughKeys)
    else if SeedAddress(e.sha, base, seed, owner) != s[idx[0]].key then Err(SeedMismatch)
    else if s[idx[0]].owner != PROGRAM_ID then Err(InvalidOwner)
    else Ok(s[idx[0] := s[idx[0]].(data := Grow(s[idx[0]].data, space), owner := owner)])
  }

  function ExecAssignSeed(e: Env, s: Accts, idx: seq<nat>, base: Pubkey, seed: seq<byte>, owner: Pubkey):
      Result<Accts, Error>
    requires InRange(idx, |s|)
  {
    if |idx| < 1 then Err(NotEnoughKeys)
    else if SeedAddress(e.sha, base, seed, owner) != s[idx[0]].key then Err(SeedMismatch)
    else if s[idx[0]].owner != PROGRAM_ID then Err(InvalidOwner)
    else Ok(s[idx[0] := s[idx[0]].(owner := owner)])
  }

  function ExecTransferSeed(e: Env, s: Accts, idx: seq<nat>, n: u64, seed: seq<byte>, owner: Pubkey):
      Result<Accts, Error>
    requires InRange(idx, |s|)
  {
    if |idx| < 3 then Err(NotEnoughKeys)
    else if !s[idx[1]].isSigner then Err(MissingSignature)
    else if SeedAddress(e.sha, s[idx[1]].key, seed, owner) != s[idx[0]].key then Err(SeedMismatch)
    else if s[idx[0]].lamports < n then Err(InsufficientFunds)
    else if s[idx[2]].lamports > MAX_U64 - n then Err(LamportOverflow)
    else Ok(Move(s, idx[0], idx[2], n))
  }

  function ExecInitialize(e: Env, s: Accts, idx: seq<nat>, authority: Pubkey): Result<Accts, Error>
    requires InRange(idx, |s|)
  {
    if |idx| < 1 then Err(NotEnoughKeys) else
    var a := s[idx[0]];
    if !a.isWritable then Err(NotWritable)
    else if a.owner != PROGRAM_ID then Err(InvalidOwner)
    else if |a.data| >= 8 && NonceState(a.data) == 1 then Err(NonceAlreadyInitialized)
    else if |a.data| < NONCE_SIZE then Err(DataTooSmall)
    else if a.lamports < e.rent(NONCE_SIZE) then Err(NotRentExempt)
    else Ok(s[idx[0] := a.(data := NewNonce(a.data, authority, e))])
  }

  /** The checks the three other nonce instructions share: signer, writability,
      state and stored authority, in that order. */
  function NonceRefusal(a: Acct, authority: Acct, writable: bool): Option<Error> {
    if !authority.isSigner then Some(MissingSignature)
    else if !writable then Some(NotWritable)
    else if |a.data| < NONCE_SIZE || NonceState(a.data) != 1 then Some(NonceNotInitialized)
    else if a.data[8..40] != authority.key then Some(NonceUnauthorized)
    else None
  }

  function ExecAdvance(e: Env, s: Accts, idx: seq<nat>): Result<Accts, Error>
    requires InRange(idx, |s|)
  {
    if |idx| < 3 then Err(NotEnoughKeys) else
    var a := s[idx[0]];
    var refusal := NonceRefusal(a, s[idx[2]], a.isWritable);
    if refusal.Some? then Err(refusal.value)
    else if a.data[40..72] == e.blockhash then Err(NonceNotExpired)
    else Ok(s[idx[0] := a.(data := Advanced(a.data, e))])
  }

  function ExecWithdraw(e: Env, s: Accts, idx: seq<nat>, n: u64): Result<Accts, Error>
    requires InRange(idx, |s|)
  {
    if |idx| < 5 then Err(NotEnoughKeys) else
    var (i, j) := (idx[0], idx[1]);
    var refusal := NonceRefusal(s[i], s[idx[4]], s[i].isWritable && s[j].isWritable);
    if refusal.Some? then Err(refusal.value)
    else if s[i].lamports < n then Err(InsufficientFunds)
    else if 0 < s[i].lamports - n < e.rent(NONCE_SIZE) then Err(NotRentExempt)
    else if s[j].lamports > MAX_U64 - n then Err(LamportOverflow)
    else
      var t := Move(s, i, j, n);
      Ok(if t[i].lamports == 0 then t[i := t[i].(data := PutAt(t[i].data, 4, LE(0, 4)))] else t)
  }

  function ExecAuthorize(s: Accts, idx: seq<nat>, authority: Pubkey): Result<Accts, Error>
    requires InRange(idx, |s|)
  {
    if |idx| < 2 then Err(NotEnoughKeys) else
    var a := s[idx[0]];
    var refusal := NonceRefusal(a, s[idx[1]], a.isWritable);
    if refusal.Some? then Err(refusal.value)
    else Ok(s[idx[0] := a.(data := PutAt(a.data, 8, authority))])
  }

  function Process(e: Env, s: Accts, idx: seq<nat>, data: seq<byte>): Result<Accts, Error>
    requires InRange(idx, |s|)
  {
    var op := Parse(data);
    if op.Err? then Err(op.error) else Exec(e, s, idx, op.value)
  }
}
