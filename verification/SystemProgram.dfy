/** The System Program as it runs: handlers that update AccountInfo objects in
    place. The same object may stand at several positions of an instruction, so an
    update through one position shows at the others. Each handler is proved to
    have exactly the effect that System describes on values. */
module SystemProgram {
  import opened Bytes
  import opened ExecAccount
  import opened System

  class AccountInfo {
    const key: Pubkey
    var owner: Pubkey
    var lamports: u64
    var data: seq<byte>
    const executable: bool
    const rentEpoch: u64
    const isSigner: bool
    const isWritable: bool

    constructor (a: Acct)
      ensures View() == a
    {
      key, owner, lamports, data := a.key, a.owner, a.lamports, a.data;
      executable, rentEpoch, isSigner, isWritable := a.executable, a.rentEpoch, a.isSigner, a.isWritable;
    }

    function View(): Acct
      reads this
    {
      Acct(key, owner, lamports, data, executable, rentEpoch, isSigner, isWritable)
    }
  }

  /** objs are the transaction's accounts, each once, and hold these values. */
  ghost predicate Shows(objs: seq<AccountInfo>, vals: Accts)
    reads objs
  {
    |objs| == |vals| && forall i :: 0 <= i < |objs| ==> objs[i].View() == vals[i]
  }

  ghost predicate Distinct(objs: seq<AccountInfo>) {
    forall i, j :: 0 <= i < j < |objs| ==> objs[i] != objs[j]
  }

  /** accounts are the objects at positions idx of the transaction's list. */
  ghost predicate Picks(accounts: seq<AccountInfo>, objs: seq<AccountInfo>, idx: seq<nat>) {
    |accounts| == |idx| && InRange(idx, |objs|) && forall i :: 0 <= i < |idx| ==> accounts[i] == objs[idx[i]]
  }

  function ErrorOf<T>(r: Result<T, Error>): Option<Error> {
    if r.Ok? then None else Some(r.error)
  }

  function StateOf(r: Result<Accts, Error>, before: Accts): Accts {
    if r.Ok? then r.value else before
  }

  /** A handler reported what r says and left the accounts as r says. */
  ghost predicate Did(err: Option<Error>, r: Result<Accts, Error>, objs: seq<AccountInfo>, vals: Accts)
    reads objs
  {
    err == ErrorOf(r) && Shows(objs, StateOf(r, vals))
  }

  /** The two updates that every transfer ends with. */
  method MoveLamports(from: AccountInfo, to: AccountInfo, n: u64, ghost objs: seq<AccountInfo>, ghost i: nat,
      ghost j: nat, ghost vals: Accts)
    requires Distinct(objs) && Shows(objs, vals) && i < |objs| && j < |objs| && from == objs[i] && to == objs[j]
    requires n <= vals[i].lamports && vals[j].lamports + n <= MAX_U64
    modifies from`lamports, to`lamports
    ensures Shows(objs, Move(vals, i, j, n))
  {
    from.lamports := from.lamports - n;
    to.lamports := to.lamports + n;
  }

  class InvokeContext {
    const accounts: seq<AccountInfo>
    const env: Env

    constructor (accounts: seq<AccountInfo>, env: Env)
      ensures this.accounts == accounts && this.env == env
    {
      this.accounts, this.env := accounts, env;
    }

    ghost predicate Ready(objs: seq<AccountInfo>, idx: seq<nat>, vals: Accts)
      reads objs
    {
      Distinct(objs) && Picks(accounts, objs, idx) && Shows(objs, vals)
    }

    /** Runs one instruction, in place. */
    method Process(data: seq<byte>, ghost objs: seq<AccountInfo>, ghost idx: seq<nat>, ghost vals: Accts)
      returns (err: Option<Error>)
      requires Ready(objs, idx, vals)
      modifies objs
      ensures Did(err, System.Process(env, vals, idx, data), objs, vals)
    {
      if |data| < 4 { return Some(InvalidInstructionData); }
      var tag, d := Read4(data[..4]), data[4..];
      match tag
      case 0 => err := CreateAccount(d, objs, idx, vals);
      case 1 => err := Assign(d, objs, idx, vals);
      case 2 => err := Transfer(d, objs, idx, vals);
      case 8 => err := Allocate(d, objs, idx, vals);
      case 3 => err := CreateAccountWithSeed(d, objs, idx, vals);
      case 9 => err := AllocateWithSeed(d, objs, idx, vals);
      case 10 => err := AssignWithSeed(d, objs, idx, vals);
      case 11 => err := TransferWithSeed(d, objs, idx, vals);
      case 6 => err := InitializeNonceAccount(d, objs, idx, vals);
      case 4 => err := AdvanceNonceAccount(objs, idx, vals);
      case 5 => err := WithdrawNonceAccount(d, objs, idx, vals);
      case 7 => err := AuthorizeNonceAccount(d, objs, idx, vals);
      case _ => err := Some(InvalidInstructionData);
    }

    method CreateAccount(d: seq<byte>, ghost objs: seq<AccountInfo>, ghost idx: seq<nat>, ghost vals: Accts)
      returns (err: Option<Error>)
      requires Ready(objs, idx, vals)
      modifies objs
      ensures Did(err, if |d| < 48 then Err(InvalidInstructionData)
        else ExecCreate(env, vals, idx, Read8(d[..8]), Read8(d[8..16]), d[16..48]), objs, vals)
    {
      if |d| < 48 { return Some(InvalidInstructionData); }
      var lamports, space, owner := Read8(d[..8]), Read8(d[8..16]), d[16..48];
      if space > MAX_DATA { return Some(DataTooLarge); }
      if |accounts| < 2 { return Some(NotEnoughKeys); }
      var funder, newAccount := accounts[0], accounts[1];
      if !funder.isSigner || !newAccount.isSigner { return Some(MissingSignature); }
      if funder.lamports < lamports { return Some(InsufficientFunds); }
      if InUse(newAccount.View()) { return Some(AlreadyInUse); }
      if lamports < env.rent(space) { return Some(NotRentExempt); }
      funder.lamports := funder.lamports - lamports;
      newAccount.lamports := lamports;
      newAccount.data := ZeroBytes(space);
      newAccount.owner := owner;
      return None;
    }

    method Assign(d: seq<byte>, ghost objs: seq<AccountInfo>, ghost idx: seq<nat>, ghost vals: Accts)
      returns (err: Option<Error>)
      requires Ready(objs, idx, vals)
      modifies objs
      ensures Did(err, if |d| < 32 then Err(InvalidInstructionData) else ExecAssign(vals, idx, d[..32]), objs, vals)
    {
      if |d| < 32 { return Some(InvalidInstructionData); }
      if |accounts| < 1 { return Some(NotEnoughKeys); }
      var account := accounts[0];
      if !account.isSigner { return Some(MissingSignature); }
      if account.owner != PROGRAM_ID { return Some(InvalidOwner); }
      account.owner := d[..32];
      return None;
    }

    method Transfer(d: seq<byte>, ghost objs: seq<AccountInfo>, ghost idx: seq<nat>, ghost vals: Accts)
      returns (err: Option<Error>)
      requires Ready(objs, idx, vals)
      modifies objs
      ensures Did(err,
        if |d| < 8 then Err(InvalidInstructionData) else ExecTransfer(vals, idx, Read8(d[..8])), objs, vals)
    {
      if |d| < 8 { return Some(InvalidInstructionData); }
      var lamports := Read8(d[..8]);
      if |accounts| < 2 { return Some(NotEnoughKeys); }
      var from, to := accounts[0], accounts[1];
      if !from.isSigner { return Some(MissingSignature); }
      if !from.isWritable || !to.isWritable { return Some(NotWritable); }
      if from.lamports < lamports { return Some(InsufficientFunds); }
      if to.lamports > MAX_U64 - lamports { return Some(LamportOverflow); }
      MoveLamports(from, to, lamports, objs, idx[0], idx[1], vals);
      return None;
    }

    method Allocate(d: seq<byte>, ghost objs: seq<AccountInfo>, ghost idx: seq<nat>, ghost vals: Accts)
      returns (err: Option<Error>)
      requires Ready(objs, idx, vals)
      modifies objs
      ensures Did(err,
        if |d| < 8 then Err(InvalidInstructionData) else ExecAllocate(vals, idx, Read8(d[..8])), objs, vals)
    {
      if |d| < 8 { return Some(InvalidInstructionData); }
      var space := Read8(d[..8]);
      if space > MAX_DATA { return Some(DataTooLarge); }
      if |accounts| < 1 { return Some(NotEnoughKeys); }
      var account := accounts[0];
      if !account.isSigner { return Some(MissingSignature); }
      if account.owner != PROGRAM_ID { return Some(InvalidOwner); }
      if |account.data| > space { return Some(DataTooSmall); }
      if |account.data| < space {
        account.data := account.data + ZeroBytes(space - |account.data|);
      }
      return None;
    }

    method CreateAccountWithSeed(d: seq<byte>, ghost objs: seq<AccountInfo>, ghost idx: seq<nat>, ghost vals: Accts)
      returns (err: Option<Error>)
      requires Ready(objs, idx, vals)
      modifies objs
      ensures Did(err, var op := ParseCreateWithSeed(d);
        if op.Err? then Err(op.error) else Exec(env, vals, idx, op.value), objs, vals)
    {
      if |d| < 48 { return Some(InvalidInstructionData); }
      var base, n := d[..32], Read8(d[32..40]);
      if n > 32 || |d| < 48 + n { return Some(InvalidSeed); }
      var seed, o := d[40..40 + n], 40 + n;
      if |d| < o + 48 { return Some(InvalidInstructionData); }
      var lamports, space, owner := Read8(d[o..o + 8]), Read8(d[o + 8..o + 16]), d[o + 16..o + 48];
      if space > MAX_DATA { return Some(DataTooLarge); }
      if |accounts| < 2 { return Some(NotEnoughKeys); }
      var funder, newAccount := accounts[0], accounts[1];
      if !funder.isSigner { return Some(MissingSignature); }
      if funder.lamports < lamports { return Some(InsufficientFunds); }
      if InUse(newAccount.View()) { return Some(AlreadyInUse); }
      if SeedAddress(env.sha, base, seed, owner) != newAccount.key { return Some(SeedMismatch); }
      if lamports < env.rent(space) { return Some(NotRentExempt); }
      funder.lamports := funder.lamports - lamports;
      newAccount.lamports := lamports;
      newAccount.data := ZeroBytes(space);
      newAccount.owner := owner;
      return None;
    }

    method AllocateWithSeed(d: seq<byte>, ghost objs: seq<AccountInfo>, ghost idx: seq<nat>, ghost vals: Accts)
      returns (err: Option<Error>)
      requires Ready(objs, idx, vals)
      modifies objs
      ensures Did(err, var op := ParseAllocateWithSeed(d);
        if op.Err? then Err(op.error) else Exec(env, vals, idx, op.value), objs, vals)
    {
      if |d| < 48 { return Some(InvalidInstructionData); }
      var base, n := d[..32], Read8(d[32..40]);
      if n > 32 || |d| < 48 + n { return Some(InvalidSeed); }
      var seed, o := d[40..40 + n], 40 + n;
      if |d| < o + 40 { return Some(InvalidInstructionData); }
      var space, owner := Read8(d[o..o + 8]), d[o + 8..o + 40];
      if space > MAX_DATA { return Some(DataTooLarge); }
      if |accounts| < 1 { return Some(NotEnoughKeys); }
      var account := accounts[0];
      if SeedAddress(env.sha, base, seed, owner) != account.key { return Some(SeedMismatch); }
      if account.owner != PROGRAM_ID { return Some(InvalidOwner); }
      if |account.data| < space {
        account.data := account.data + ZeroBytes(space - |account.data|);
      }
      account.owner := owner;
      return None;
    }

    method AssignWithSeed(d: seq<byte>, ghost objs: seq<AccountInfo>, ghost idx: seq<nat>, ghost vals: Accts)
      returns (err: Option<Error>)
      requires Ready(objs, idx, vals)
      modifies objs
      ensures Did(err, var op := ParseAssignWithSeed(d);
        if op.Err? then Err(op.error) else Exec(env, vals, idx, op.value), objs, vals)
    {
      if |d| < 40 { return Some(InvalidInstructionData); }
      var base, n := d[..32], Read8(d[32..40]);
      if n > 32 || |d| < 72 + n { return Some(InvalidSeed); }
      var seed, owner := d[40..40 + n], d[40 + n..72 + n];
      if |accounts| < 1 { return Some(NotEnoughKeys); }
      var account := accounts[0];
      if SeedAddress(env.sha, base, seed, owner) != account.key { return Some(SeedMismatch); }
      if account.owner != PROGRAM_ID { return Some(InvalidOwner); }
      account.owner := owner;
      return None;
    }

    method TransferWithSeed(d: seq<byte>, ghost objs: seq<AccountInfo>, ghost idx: seq<nat>, ghost vals: Accts)
      returns (err: Option<Error>)
      requires Ready(objs, idx, vals)
      modifies objs
      ensures Did(err, var op := ParseTransferWithSeed(d);
        if op.Err? then Err(op.error) else Exec(env, vals, idx, op.value), objs, vals)
    {
      if |d| < 16 { return Some(InvalidInstructionData); }
      var lamports, n := Read8(d[..8]), Read8(d[8..16]);
      if n > 32 || |d| < 48 + n { return Some(InvalidSeed); }
      var seed, fromOwner := d[16..16 + n], d[16 + n..48 + n];
      if |accounts| < 3 { return Some(NotEnoughKeys); }
      var from, base, to := accounts[0], accounts[1], accounts[2];
      if !base.isSigner { return Some(MissingSignature); }
      if SeedAddress(env.sha, base.key, seed, fromOwner) != from.key { return Some(SeedMismatch); }
      if from.lamports < lamports { return Some(InsufficientFunds); }
      if to.lamports > MAX_U64 - lamports { return Some(LamportOverflow); }
      MoveLamports(from, to, lamports, objs, idx[0], idx[2], vals);
      return None;
    }

    method InitializeNonceAccount(d: seq<byte>, ghost objs: seq<AccountInfo>, ghost idx: seq<nat>, ghost vals: Accts)
      returns (err: Option<Error>)
      requires Ready(objs, idx, vals)
      modifies objs
      ensures Did(err,
        if |d| < 32 then Err(InvalidInstructionData) else ExecInitialize(env, vals, idx, d[..32]), objs, vals)
    {
      if |d| < 32 { return Some(InvalidInstructionData); }
      var authority := d[..32];
      if |accounts| < 1 { return Some(NotEnoughKeys); }
      var nonce := accounts[0];
      if !nonce.isWritable { return Some(NotWritable); }
      if nonce.owner != PROGRAM_ID { return Some(InvalidOwner); }
      if |nonce.data| >= 8 && NonceState(nonce.data) == 1 { return Some(NonceAlreadyInitialized); }
      if |nonce.data| < NONCE_SIZE { return Some(DataTooSmall); }
      if nonce.lamports < env.rent(NONCE_SIZE) { return Some(NotRentExempt); }
      nonce.data := PutAt(nonce.data, 0, LE(1, 4));
      nonce.data := PutAt(nonce.data, 4, LE(1, 4));
      nonce.data := PutAt(nonce.data, 8, authority);
      nonce.data := PutAt(nonce.data, 40, env.blockhash);
      nonce.data := PutAt(nonce.data, 72, LE(env.fee, 8));
      return None;
    }

    method AdvanceNonceAccount(ghost objs: seq<AccountInfo>, ghost idx: seq<nat>, ghost vals: Accts)
      returns (err: Option<Error>)
      requires Ready(objs, idx, vals)
      modifies objs
      ensures Did(err, ExecAdvance(env, vals, idx), objs, vals)
    {
      if |accounts| < 3 { return Some(NotEnoughKeys); }
      var nonce, authority := accounts[0], accounts[2];
      if !authority.isSigner { return Some(MissingSignature); }
      if !nonce.isWritable { return Some(NotWritable); }
      if |nonce.data| < NONCE_SIZE || NonceState(nonce.data) != 1 { return Some(NonceNotInitialized); }
      if nonce.data[8..40] != authority.key { return Some(NonceUnauthorized); }
      if nonce.data[40..72] == env.blockhash { return Some(NonceNotExpired); }
      nonce.data := PutAt(nonce.data, 40, env.blockhash);
      nonce.data := PutAt(nonce.data, 72, LE(env.fee, 8));
      return None;
    }

    method WithdrawNonceAccount(d: seq<byte>, ghost objs: seq<AccountInfo>, ghost idx: seq<nat>, ghost vals: Accts)
      returns (err: Option<Error>)
      requires Ready(objs, idx, vals)
      modifies objs
      ensures Did(err,
        if |d| < 8 then Err(InvalidInstructionData) else ExecWithdraw(env, vals, idx, Read8(d[..8])), objs, vals)
    {
      if |d| < 8 { return Some(InvalidInstructionData); }
      var lamports := Read8(d[..8]);
      if |accounts| < 5 { return Some(NotEnoughKeys); }
      var nonce, destination, authority := accounts[0], accounts[1], accounts[4];
      if !authority.isSigner { return Some(MissingSignature); }
      if !nonce.isWritable || !destination.isWritable { return Some(NotWritable); }
      if |nonce.data| < NONCE_SIZE || NonceState(nonce.data) != 1 { return Some(NonceNotInitialized); }
      if nonce.data[8..40] != authority.key { return Some(NonceUnauthorized); }
      if nonce.lamports < lamports { return Some(InsufficientFunds); }
      var remaining := nonce.lamports - lamports;
      if remaining > 0 && remaining < env.rent(NONCE_SIZE) { return Some(NotRentExempt); }
      if destination.lamports > MAX_U64 - lamports { return Some(LamportOverflow); }
      MoveLamports(nonce, destination, lamports, objs, idx[0], idx[1], vals);
      if nonce.lamports == 0 {
        nonce.data := PutAt(nonce.data, 4, LE(0, 4));
      }
      return None;
    }

    method AuthorizeNonceAccount(d: seq<byte>, ghost objs: seq<AccountInfo>, ghost idx: seq<nat>, ghost vals: Accts)
      returns (err: Option<Error>)
      requires Ready(objs, idx, vals)
      modifies objs
      ensures Did(err, if |d| < 32 then Err(InvalidInstructionData) else ExecAuthorize(vals, idx, d[..32]), objs, vals)
    {
      if |d| < 32 { return Some(InvalidInstructionData); }
      if |accounts| < 2 { return Some(NotEnoughKeys); }
      var nonce, authority := accounts[0], accounts[1];
      if !authority.isSigner { return Some(MissingSignature); }
      if !nonce.isWritable { return Some(NotWritable); }
      if |nonce.data| < NONCE_SIZE || NonceState(nonce.data) != 1 { return Some(NonceNotInitialized); }
      if nonce.data[8..40] != authority.key { return Some(NonceUnauthorized); }
      nonce.data := PutAt(nonce.data, 8, d[..32]);
      return None;
    }
  }
}
