/** What every System Program instruction keeps, over single instructions and
    over whole runs: the lamport total, the accounts it does not name, and the
    state machine of nonce accounts. */
module SystemLaws {
  import opened Bytes
  import opened ExecAccount
  import opened System

  // -------------------------------------------------------------- conservation

  function Total(s: Accts): nat {
    if s == [] then 0 else s[0].lamports + Total(s[1..])
  }

  lemma {:induction false} TotalUpdate(s: Accts, i: nat, a: Acct)
    requires i < |s|
    ensures Total(s[i := a]) == Total(s) - s[i].lamports + a.lamports
  {
    if i == 0 {
      assert s[0 := a][1..] == s[1..];
    } else {
      assert s[i := a][1..] == s[1..][i - 1 := a];
      TotalUpdate(s[1..], i - 1, a);
    }
  }

  lemma MoveKeepsTotal(s: Accts, i: nat, j: nat, n: u64)
    requires i < |s| && j < |s| && n <= s[i].lamports && s[j].lamports + n <= MAX_U64
    ensures Total(Move(s, i, j, n)) == Total(s)
  {
    var a := s[i].(lamports := s[i].lamports - n);
    var t := s[i := a];
    var b := t[j].(lamports := t[j].lamports + n);
    assert Move(s, i, j, n) == s[i := a][j := b];
    TotalUpdates(s, i, a, j, b);
  }

  lemma TotalUpdates(s: Accts, i: nat, a: Acct, j: nat, b: Acct)
    requires i < |s| && j < |s|
    ensures Total(s[i := a][j := b]) == Total(s) - s[i].lamports + a.lamports - s[i := a][j].lamports + b.lamports
  {
    TotalUpdate(s, i, a);
    TotalUpdate(s[i := a], j, b);
  }

  lemma FundKeepsTotal(s: Accts, i: nat, j: nat, n: u64, space: nat, owner: Pubkey)
    requires i < |s| && j < |s| && n <= s[i].lamports && s[j].lamports == 0
    ensures Total(Fund(s, i, j, n, space, owner)) == Total(s)
  {
    var a := s[i].(lamports := s[i].lamports - n);
    var b := s[i := a][j].(lamports := n, data := ZeroBytes(space), owner := owner);
    assert Fund(s, i, j, n, space, owner) == s[i := a][j := b];
    assert s[i := a][j].lamports == 0 || (i == j && n == 0);
    TotalUpdates(s, i, a, j, b);
  }

  lemma UpdateKeepsTotal(s: Accts, i: nat, a: Acct)
    requires i < |s| && a.lamports == s[i].lamports
    ensures Total(s[i := a]) == Total(s)
  {
    TotalUpdate(s, i, a);
  }

  /** An instruction neither creates nor destroys lamports, whichever positions
      alias each other. */
  lemma Conservation(e: Env, s: Accts, idx: seq<nat>, op: Instr)
    requires InRange(idx, |s|) && Exec(e, s, idx, op).Ok?
    ensures Total(Exec(e, s, idx, op).value) == Total(s)
  {
    var i := idx[0];
    match op
    case CreateAccount(n, space, owner) => FundKeepsTotal(s, i, idx[1], n, space, owner);
    case CreateWithSeed(_, _, n, space, owner) => FundKeepsTotal(s, i, idx[1], n, space, owner);
    case Transfer(n) => MoveKeepsTotal(s, i, idx[1], n);
    case TransferWithSeed(n, _, _) => MoveKeepsTotal(s, i, idx[2], n);
    case WithdrawNonce(n) => WithdrawKeepsTotal(e, s, idx, n);
    case _ =>
      UpdateKept(e, s, idx, op);
      UpdateKeepsTotal(s, i, Exec(e, s, idx, op).value[i]);
  }

  lemma WithdrawKeepsTotal(e: Env, s: Accts, idx: seq<nat>, n: u64)
    requires InRange(idx, |s|) && ExecWithdraw(e, s, idx, n).Ok?
    ensures Total(ExecWithdraw(e, s, idx, n).value) == Total(s)
  {
    var i := idx[0];
    MoveKeepsTotal(s, i, idx[1], n);
    var t := Move(s, i, idx[1], n);
    UpdateKeepsTotal(t, i, t[i].(data := PutAt(t[i].data, 4, LE(0, 4))));
  }

  // --------------------------------------------------------------------- frame

  /** What no instruction changes in an account it may touch. */
  predicate Kept(a: Acct, b: Acct) {
    && b == a.(lamports := b.lamports, data := b.data, owner := b.owner)
    && |a.data| <= |b.data|
    && (|b.data| == |a.data| || |b.data| <= MAX_DATA)
  }

  ghost predicate AllKept(s: Accts, t: Accts) {
    |t| == |s| && forall k :: 0 <= k < |s| ==> Kept(s[k], t[k])
  }

  ghost predicate OthersSame(s: Accts, t: Accts, idx: seq<nat>) {
    |t| == |s| && forall k :: 0 <= k < |s| && k !in idx ==> t[k] == s[k]
  }

  /** Only named accounts change; keys, flags and rent epochs never do; data never
      shrinks, and grows to 10 MiB at most. */
  lemma Frame(e: Env, s: Accts, idx: seq<nat>, op: Instr)
    requires InRange(idx, |s|) && Exec(e, s, idx, op).Ok?
    ensures AllKept(s, Exec(e, s, idx, op).value)
    ensures OthersSame(s, Exec(e, s, idx, op).value, idx)
  {
    match op
    case CreateAccount(n, space, owner) => FundFrame(s, idx[0], idx[1], n, space, owner);
    case CreateWithSeed(_, _, n, space, owner) => FundFrame(s, idx[0], idx[1], n, space, owner);
    case Transfer(n) => MoveFrame(s, idx[0], idx[1], n);
    case TransferWithSeed(n, _, _) => MoveFrame(s, idx[0], idx[2], n);
    case WithdrawNonce(n) => WithdrawFrame(e, s, idx, n);
    case _ =>
      var b := Exec(e, s, idx, op).value[idx[0]];
      UpdateKept(e, s, idx, op);
      UpdateFrame(s, idx[0], b, idx);
  }

  lemma UpdateFrame(s: Accts, i: nat, b: Acct, idx: seq<nat>)
    requires i < |s| && Kept(s[i], b) && i in idx
    ensures AllKept(s, s[i := b]) && OthersSame(s, s[i := b], idx)
  {
  }

  predicate OneAccount(op: Instr) {
    op.Assign? || op.Allocate? || op.AllocateWithSeed? || op.AssignWithSeed? || op.InitializeNonce?
    || op.AdvanceNonce? || op.AuthorizeNonce?
  }

  lemma UpdateKept(e: Env, s: Accts, idx: seq<nat>, op: Instr)
    requires InRange(idx, |s|) && Exec(e, s, idx, op).Ok? && OneAccount(op)
    ensures var b := Exec(e, s, idx, op).value;
      |b| == |s| && b == s[idx[0] := b[idx[0]]] && Kept(s[idx[0]], b[idx[0]])
      && b[idx[0]].lamports == s[idx[0]].lamports
  {
  }

  lemma WithdrawFrame(e: Env, s: Accts, idx: seq<nat>, n: u64)
    requires InRange(idx, |s|) && ExecWithdraw(e, s, idx, n).Ok?
    ensures AllKept(s, ExecWithdraw(e, s, idx, n).value)
    ensures OthersSame(s, ExecWithdraw(e, s, idx, n).value, idx)
  {
    MoveFrame(s, idx[0], idx[1], n);
  }

  lemma MoveFrame(s: Accts, i: nat, j: nat, n: u64)
    requires i < |s| && j < |s| && n <= s[i].lamports && s[j].lamports + n <= MAX_U64
    ensures var t := Move(s, i, j, n);
      |t| == |s| && forall k :: 0 <= k < |s| ==>
        t[k] == s[k].(lamports := t[k].lamports) && (k != i && k != j ==> t[k] == s[k])
  {
  }

  lemma FundFrame(s: Accts, i: nat, j: nat, n: u64, space: nat, owner: Pubkey)
    requires i < |s| && j < |s| && n <= s[i].lamports && |s[j].data| == 0 && space <= MAX_DATA
    ensures AllKept(s, Fund(s, i, j, n, space, owner))
    ensures OthersSame(s, Fund(s, i, j, n, space, owner), [i, j])
  {
  }

  // ------------------------------------------------------------------ payments

  /** Who pays whom: positions of payer and payee, and the amount. */
  function Payment(op: Instr): Option<(nat, nat, u64)> {
    match op
    case CreateAccount(n, _, _) => Some((0, 1, n))
    case CreateWithSeed(_, _, n, _, _) => Some((0, 1, n))
    case Transfer(n) => Some((0, 1, n))
    case TransferWithSeed(n, _, _) => Some((0, 2, n))
    case WithdrawNonce(n) => Some((0, 1, n))
    case _ => None
  }

  function Paid(idx: seq<nat>, op: Instr, k: nat): int {
    var p := Payment(op);
    if p.None? || p.value.1 >= |idx| then 0 else
    var (i, j, n) := p.value;
    (if k == idx[j] then n else 0) - (if k == idx[i] then n else 0)
  }

  /** The payer loses the amount, the payee gains it and no other balance changes,
      also when payer and payee are one account. */
  lemma PaymentExact(e: Env, s: Accts, idx: seq<nat>, op: Instr, k: nat)
    requires InRange(idx, |s|) && k < |s| && Exec(e, s, idx, op).Ok?
    ensures |Exec(e, s, idx, op).value| == |s|
    ensures Exec(e, s, idx, op).value[k].lamports == s[k].lamports + Paid(idx, op, k)
  {
    if OneAccount(op) { UpdateKept(e, s, idx, op); } else { PaymentMoves(e, s, idx, op, k); }
  }

  lemma PaymentMoves(e: Env, s: Accts, idx: seq<nat>, op: Instr, k: nat)
    requires InRange(idx, |s|) && k < |s| && Exec(e, s, idx, op).Ok? && !OneAccount(op)
    ensures |Exec(e, s, idx, op).value| == |s|
    ensures Exec(e, s, idx, op).value[k].lamports == s[k].lamports + Paid(idx, op, k)
  {
  }

  /** The signature that an instruction needs to take lamports from account k: its
      own, that of the base it is derived from, or that of its nonce authority. */
  predicate MayDebit(e: Env, s: Accts, idx: seq<nat>, op: Instr, k: nat)
    requires InRange(idx, |s|) && k < |s|
  {
    match op
    case CreateAccount(_, _, _) => s[k].isSigner
    case CreateWithSeed(_, _, _, _, _) => s[k].isSigner
    case Transfer(_) => s[k].isSigner
    case TransferWithSeed(_, seed, owner) =>
      |idx| > 1 && s[idx[1]].isSigner && s[k].key == SeedAddress(e.sha, s[idx[1]].key, seed, owner)
    case WithdrawNonce(_) =>
      |idx| > 4 && NonceInit(s[k]) && s[idx[4]].isSigner && s[idx[4]].key == Authority(s[k])
    case _ => false
  }

  /** No account loses lamports without such a signature. */
  lemma DebitsAuthorized(e: Env, s: Accts, idx: seq<nat>, op: Instr, k: nat)
    requires InRange(idx, |s|) && k < |s| && Exec(e, s, idx, op).Ok?
    requires |Exec(e, s, idx, op).value| == |s| && Exec(e, s, idx, op).value[k].lamports < s[k].lamports
    ensures MayDebit(e, s, idx, op, k)
  {
    PaymentExact(e, s, idx, op, k);
  }

  /** Only accounts that the System Program owns are given to another owner. */
  lemma OwnerStep(e: Env, s: Accts, idx: seq<nat>, op: Instr, k: nat)
    requires InRange(idx, |s|) && k < |s| && Exec(e, s, idx, op).Ok? && s[k].owner != PROGRAM_ID
    ensures |Exec(e, s, idx, op).value| == |s| && Exec(e, s, idx, op).value[k].owner == s[k].owner
  {
  }

  // ---------------------------------------------------------------------- runs

  datatype Call = Call(env: Env, idx: seq<nat>, data: seq<byte>)

  /** One call; a refused one leaves the accounts as they were. */
  function After(s: Accts, c: Call): Accts
    requires InRange(c.idx, |s|)
  {
    var r := Process(c.env, s, c.idx, c.data);
    if r.Ok? then r.value else s
  }

  ghost predicate CallsInRange(calls: seq<Call>, n: nat) {
    forall k :: 0 <= k < |calls| ==> InRange(calls[k].idx, n)
  }

  lemma AfterKeeps(s: Accts, c: Call)
    requires InRange(c.idx, |s|)
    ensures AllKept(s, After(s, c)) && OthersSame(s, After(s, c), c.idx)
    ensures Total(After(s, c)) == Total(s)
  {
    var op := Parse(c.data);
    if op.Ok? && Exec(c.env, s, c.idx, op.value).Ok? {
      Frame(c.env, s, c.idx, op.value);
      Conservation(c.env, s, c.idx, op.value);
    }
  }

  ghost function RunCalls(s: Accts, calls: seq<Call>): (t: Accts)
    requires CallsInRange(calls, |s|)
    ensures |t| == |s|
    decreases |calls|
  {
    if calls == [] then s else
    AfterKeeps(s, calls[0]);
    assert CallsInRange(calls[1..], |s|);
    RunCalls(After(s, calls[0]), calls[1..])
  }

  lemma {:induction false} RunKeeps(s: Accts, calls: seq<Call>)
    requires CallsInRange(calls, |s|)
    ensures Total(RunCalls(s, calls)) == Total(s)
    ensures AllKept(s, RunCalls(s, calls)) && UnnamedSame(s, RunCalls(s, calls), calls)
    decreases |calls|
  {
    if calls != [] {
      AfterKeeps(s, calls[0]);
      assert CallsInRange(calls[1..], |s|);
      RunKeeps(After(s, calls[0]), calls[1..]);
      var (t, u) := (After(s, calls[0]), RunCalls(s, calls));
      forall k | 0 <= k < |s| && !Named(calls, k) ensures u[k] == s[k] {
        NamedTail(calls, k);
        assert t[k] == s[k] && !Named(calls[1..], k);
      }
    }
  }

  /** Some call names account k. */
  ghost predicate Named(calls: seq<Call>, k: nat) {
    exists i :: 0 <= i < |calls| && k in calls[i].idx
  }

  ghost predicate UnnamedSame(s: Accts, t: Accts, calls: seq<Call>) {
    |t| == |s| && forall k :: 0 <= k < |s| && !Named(calls, k) ==> t[k] == s[k]
  }

  lemma NamedTail(calls: seq<Call>, k: nat)
    requires calls != []
    ensures k in calls[0].idx || Named(calls[1..], k) ==> Named(calls, k)
  {
    if Named(calls[1..], k) {
      var i :| 0 <= i < |calls[1..]| && k in calls[1..][i].idx;
      assert k in calls[i + 1].idx;
    }
  }

  // --------------------------------------------------------------------- nonce

  predicate NonceInit(a: Acct) {
    |a.data| >= NONCE_SIZE && NonceState(a.data) == 1
  }

  function Authority(a: Acct): Pubkey
    requires |a.data| >= NONCE_SIZE
  {
    a.data[8..40]
  }

  function NonceHash(a: Acct): Hash
    requires |a.data| >= NONCE_SIZE
  {
    a.data[40..72]
  }

  /** The position that must hold the authority in the instructions that change
      an initialized nonce. */
  function AuthorityAt(op: Instr): Option<nat> {
    match op
    case AuthorizeNonce(_) => Some(1)
    case AdvanceNonce => Some(2)
    case WithdrawNonce(_) => Some(4)
    case _ => None
  }

  /** The instruction is addressed to nonce account k and its stored authority signed. */
  predicate Entitled(s: Accts, idx: seq<nat>, op: Instr, k: nat)
    requires k < |s| && NonceInit(s[k])
  {
    var at := AuthorityAt(op);
    && at.Some? && at.value < |idx| && idx[0] == k && s[k].isWritable
    && idx[at.value] < |s| && s[idx[at.value]].isSigner && s[idx[at.value]].key == Authority(s[k])
  }

  /** The effect an entitled instruction may have on the 80 nonce bytes. */
  predicate NonceMoved(e: Env, a: Acct, b: Acct, op: Instr)
    requires NonceInit(a) && |b.data| == |a.data|
  {
    match op
    case AuthorizeNonce(to) =>
      b.data[..8] == a.data[..8] && b.data[8..40] == to && b.data[40..] == a.data[40..]
    case AdvanceNonce =>
      NonceHash(a) != e.blockhash && b.data[..40] == a.data[..40] && b.data[40..72] == e.blockhash
      && b.data[72..80] == LE(e.fee, 8) && b.data[80..] == a.data[80..]
    case WithdrawNonce(n) =>
      if b.lamports == 0 then
        b.data[..4] == a.data[..4] && b.data[4..8] == LE(0, 4) && b.data[8..] == a.data[8..]
      else b.data == a.data
    case _ => false
  }

  /** An instruction leaves the nonce bytes of an initialized nonce account alone,
      unless it is one of the three nonce instructions, names that account first
      and is signed by the stored authority. */
  lemma NonceStep(e: Env, s: Accts, idx: seq<nat>, op: Instr, k: nat)
    requires InRange(idx, |s|) && k < |s| && NonceInit(s[k]) && Exec(e, s, idx, op).Ok?
    ensures var t := Exec(e, s, idx, op).value;
      && |t| == |s| && |t[k].data| >= |s[k].data|
      && if Entitled(s, idx, op, k)
         then |t[k].data| == |s[k].data| && NonceMoved(e, s[k], t[k], op)
         else t[k].data[..|s[k].data|] == s[k].data
  {
    if Entitled(s, idx, op, k) { NonceEntitled(e, s, idx, op, k); }
    else if op.WithdrawNonce? || op.AdvanceNonce? || op.AuthorizeNonce? { NonceElsewhere(e, s, idx, op, k); }
    else { NonceOther(e, s, idx, op, k); }
  }

  lemma NonceElsewhere(e: Env, s: Accts, idx: seq<nat>, op: Instr, k: nat)
    requires InRange(idx, |s|) && k < |s| && NonceInit(s[k]) && Exec(e, s, idx, op).Ok? && !Entitled(s, idx, op, k)
    requires op.WithdrawNonce? || op.AdvanceNonce? || op.AuthorizeNonce?
    ensures |Exec(e, s, idx, op).value| == |s| && Exec(e, s, idx, op).value[k].data == s[k].data
  {
    assert idx[0] != k;
  }

  lemma NonceOther(e: Env, s: Accts, idx: seq<nat>, op: Instr, k: nat)
    requires InRange(idx, |s|) && k < |s| && NonceInit(s[k]) && Exec(e, s, idx, op).Ok?
    requires !op.WithdrawNonce? && !op.AdvanceNonce? && !op.AuthorizeNonce?
    ensures var t := Exec(e, s, idx, op).value;
      |t| == |s| && |t[k].data| >= |s[k].data| && t[k].data[..|s[k].data|] == s[k].data
  {
  }

  lemma NonceEntitled(e: Env, s: Accts, idx: seq<nat>, op: Instr, k: nat)
    requires InRange(idx, |s|) && k < |s| && NonceInit(s[k]) && Exec(e, s, idx, op).Ok? && Entitled(s, idx, op, k)
    ensures var t := Exec(e, s, idx, op).value;
      |t| == |s| && |t[k].data| == |s[k].data| && NonceMoved(e, s[k], t[k], op)
  {
  }

  /** Some account of the transaction that signed has this key. */
  ghost predicate Signed(s: Accts, key: Pubkey) {
    exists i :: 0 <= i < |s| && s[i].isSigner && s[i].key == key
  }

  predicate Touches(s: Accts, c: Call, k: nat)
    requires InRange(c.idx, |s|) && k < |s| && NonceInit(s[k])
  {
    Process(c.env, s, c.idx, c.data).Ok? && Entitled(s, c.idx, Parse(c.data).value, k)
  }

  lemma UntouchedNonce(s: Accts, c: Call, k: nat)
    requires InRange(c.idx, |s|) && k < |s| && NonceInit(s[k]) && !Touches(s, c, k)
    ensures |After(s, c)| == |s| && NonceInit(After(s, c)[k]) && After(s, c)[k].data[..80] == s[k].data[..80]
  {
    var r := Process(c.env, s, c.idx, c.data);
    if r.Ok? {
      NonceStep(c.env, s, c.idx, Parse(c.data).value, k);
      var (a, b) := (s[k].data, r.value[k].data);
      assert b[..80] == b[..|a|][..80];
      assert b[4..8] == b[..80][4..8] && a[4..8] == a[..80][4..8];
    }
  }

  /** However long the run, if the nonce bytes differ at its end there is a first
      call that could change them, and its instruction was signed by the authority
      stored at the start. */
  lemma {:induction false} FirstNonceUse(s: Accts, calls: seq<Call>, k: nat) returns (j: nat)
    requires CallsInRange(calls, |s|) && k < |s| && NonceInit(s[k])
    requires |RunCalls(s, calls)[k].data| < 80 || RunCalls(s, calls)[k].data[..80] != s[k].data[..80]
    ensures j < |calls| && CallsInRange(calls[..j], |s|)
    ensures var u := RunCalls(s, calls[..j]);
      NonceInit(u[k]) && u[k].data[..80] == s[k].data[..80] && Touches(u, calls[j], k)
    decreases |calls|
  {
    if Touches(s, calls[0], k) {
      j := 0;
    } else {
      UntouchedNonce(s, calls[0], k);
      AfterKeeps(s, calls[0]);
      assert CallsInRange(calls[1..], |s|);
      j := FirstNonceUse(After(s, calls[0]), calls[1..], k);
      assert calls[1..][..j] == calls[..j + 1][1..];
      j := j + 1;
    }
  }

  /** Without its authority's signature a nonce account is frozen, over any run. */
  lemma NonceSafety(s: Accts, calls: seq<Call>, k: nat)
    requires CallsInRange(calls, |s|) && k < |s| && NonceInit(s[k]) && !Signed(s, Authority(s[k]))
    ensures var t := RunCalls(s, calls)[k];
      NonceInit(t) && Authority(t) == Authority(s[k]) && NonceHash(t) == NonceHash(s[k])
  {
    RunKeeps(s, calls);
    var t := RunCalls(s, calls);
    assert Kept(s[k], t[k]);
    if t[k].data[..80] != s[k].data[..80] {
      var j := FirstNonceUse(s, calls, k);
      var u := RunCalls(s, calls[..j]);
      RunKeeps(s, calls[..j]);
      var i := calls[j].idx[AuthorityAt(Parse(calls[j].data).value).value];
      assert Kept(s[i], u[i]);
      SameNonce(s[k], u[k]);
      assert false;
    }
    SameNonce(s[k], t[k]);
  }

  lemma SameNonce(a: Acct, b: Acct)
    requires |a.data| >= NONCE_SIZE && |b.data| >= NONCE_SIZE && a.data[..80] == b.data[..80]
    ensures NonceInit(a) == NonceInit(b) && Authority(a) == Authority(b) && NonceHash(a) == NonceHash(b)
  {
    assert forall d: seq<byte> :: |d| >= 80 ==>
      d[..80][4..8] == d[4..8] && d[..80][8..40] == d[8..40] && d[..80][40..72] == d[40..72];
    assert a.data[4..8] == b.data[4..8];
  }

  // ------------------------------------------------------ one blockhash, one use

  /** If byte 4, the low byte of the state tag, says initialized, this is a whole
      nonce account that already holds the current blockhash. */
  predicate Spent(e: Env, a: Acct) {
    |a.data| > 4 && a.data[4] == 1 ==> |a.data| >= NONCE_SIZE && NonceHash(a) == e.blockhash
  }

  lemma TagByte(d: seq<byte>)
    requires |d| >= 8 && NonceState(d) == 1
    ensures d[4] == 1
  {
    assert d[4..8][0] == d[4];
    assert NonceState(d) == d[4] + 256 * UnLE(d[4..8][1..]);
  }

  lemma SpentStep(e: Env, s: Accts, idx: seq<nat>, op: Instr, k: nat)
    requires InRange(idx, |s|) && k < |s| && Spent(e, s[k]) && Exec(e, s, idx, op).Ok?
    ensures |Exec(e, s, idx, op).value| == |s| && Spent(e, Exec(e, s, idx, op).value[k])
  {
    if NonceInit(s[k]) { SpentNonce(e, s, idx, op, k); } else { SpentOther(e, s, idx, op, k); }
  }

  lemma SpentNonce(e: Env, s: Accts, idx: seq<nat>, op: Instr, k: nat)
    requires InRange(idx, |s|) && k < |s| && Spent(e, s[k]) && Exec(e, s, idx, op).Ok? && NonceInit(s[k])
    ensures |Exec(e, s, idx, op).value| == |s| && Spent(e, Exec(e, s, idx, op).value[k])
  {
    TagByte(s[k].data);
    NonceStep(e, s, idx, op, k);
    var (a, b) := (s[k], Exec(e, s, idx, op).value[k]);
    if Entitled(s, idx, op, k) { SpentMoved(e, a, b, op); }
    else { SpentExtended(e, a, b); }
  }

  lemma SpentExtended(e: Env, a: Acct, b: Acct)
    requires |a.data| >= NONCE_SIZE && NonceHash(a) == e.blockhash
    requires |b.data| >= |a.data| && b.data[..|a.data|] == a.data
    ensures Spent(e, b)
  {
    assert b.data[40..72] == b.data[..|a.data|][40..72];
  }

  lemma SpentOther(e: Env, s: Accts, idx: seq<nat>, op: Instr, k: nat)
    requires InRange(idx, |s|) && k < |s| && Spent(e, s[k]) && Exec(e, s, idx, op).Ok? && !NonceInit(s[k])
    ensures |Exec(e, s, idx, op).value| == |s| && Spent(e, Exec(e, s, idx, op).value[k])
  {
    var (a, b) := (s[k], Exec(e, s, idx, op).value[k]);
    UntaggedStep(e, s, idx, op, k);
    if op.InitializeNonce? && idx[0] == k { InitializedNonce(e, s, idx, op.authority); }
    else { UntaggedGrowth(e, a, b); }
  }

  lemma InitializedNonce(e: Env, s: Accts, idx: seq<nat>, authority: Pubkey)
    requires InRange(idx, |s|) && ExecInitialize(e, s, idx, authority).Ok?
    ensures Spent(e, ExecInitialize(e, s, idx, authority).value[idx[0]])
  {
    InitializedHash(s[idx[0]].data, authority, e);
  }

  lemma SpentMoved(e: Env, a: Acct, b: Acct, op: Instr)
    requires NonceInit(a) && NonceHash(a) == e.blockhash && |b.data| == |a.data| && NonceMoved(e, a, b, op)
    ensures Spent(e, b)
  {
    var (x, y) := (a.data, b.data);
    if op.AuthorizeNonce? { assert y[40..72] == y[40..][..32] == x[40..][..32]; }
    if op.WithdrawNonce? && y != x {
      assert y[4..8] == LE(0, 4);
      assert y[4..8][0] == 0;
    }
  }

  lemma InitializedHash(d: seq<byte>, authority: Pubkey, e: Env)
    requires |d| >= NONCE_SIZE
    ensures |NewNonce(d, authority, e)| == |d| && NewNonce(d, authority, e)[40..72] == e.blockhash
  {
  }

  ghost predicate ZeroExtended(a: seq<byte>, b: seq<byte>) {
    |a| <= |b| && b[..|a|] == a && forall i :: |a| <= i < |b| ==> b[i] == 0
  }

  /** Every other instruction can only extend the data of an account that is not
      an initialized nonce, by zeros. */
  lemma UntaggedStep(e: Env, s: Accts, idx: seq<nat>, op: Instr, k: nat)
    requires InRange(idx, |s|) && k < |s| && !NonceInit(s[k]) && Exec(e, s, idx, op).Ok?
    ensures var t := Exec(e, s, idx, op).value;
      && |t| == |s|
      && if op.InitializeNonce? && idx[0] == k then t[k].data == NewNonce(s[k].data, op.authority, e)
         else ZeroExtended(s[k].data, t[k].data)
  {
    if Payment(op).Some? { PaymentData(e, s, idx, op, k); }
    else if op.Allocate? || op.AllocateWithSeed? { AllocatedData(e, s, idx, op, k); }
    else { SameData(e, s, idx, op, k); }
  }

  lemma PaymentData(e: Env, s: Accts, idx: seq<nat>, op: Instr, k: nat)
    requires InRange(idx, |s|) && k < |s| && Exec(e, s, idx, op).Ok? && Payment(op).Some? && !NonceInit(s[k])
    ensures |Exec(e, s, idx, op).value| == |s| && ZeroExtended(s[k].data, Exec(e, s, idx, op).value[k].data)
  {
  }

  lemma AllocatedData(e: Env, s: Accts, idx: seq<nat>, op: Instr, k: nat)
    requires InRange(idx, |s|) && k < |s| && Exec(e, s, idx, op).Ok? && (op.Allocate? || op.AllocateWithSeed?)
    ensures |Exec(e, s, idx, op).value| == |s| && ZeroExtended(s[k].data, Exec(e, s, idx, op).value[k].data)
  {
  }

  lemma SameData(e: Env, s: Accts, idx: seq<nat>, op: Instr, k: nat)
    requires InRange(idx, |s|) && k < |s| && Exec(e, s, idx, op).Ok? && !NonceInit(s[k])
    requires Payment(op).None? && !op.Allocate? && !op.AllocateWithSeed?
    ensures var t := Exec(e, s, idx, op).value;
      |t| == |s| && t[k].data
        == if op.InitializeNonce? && idx[0] == k then NewNonce(s[k].data, op.authority, e) else s[k].data
  {
  }

  lemma UntaggedGrowth(e: Env, a: Acct, b: Acct)
    requires Spent(e, a) && ZeroExtended(a.data, b.data)
    ensures Spent(e, b)
  {
    if |b.data| > 4 && b.data[4] == 1 {
      assert |a.data| > 4 && a.data[4] == b.data[..|a.data|][4];
      assert b.data[..|a.data|][40..72] == b.data[40..72];
    }
  }

  /** A run all of whose calls see the environment of e. */
  ghost predicate SameEnv(e: Env, calls: seq<Call>) {
    forall i :: 0 <= i < |calls| ==> calls[i].env == e
  }

  lemma {:induction false} SpentRun(e: Env, s: Accts, calls: seq<Call>, k: nat)
    requires CallsInRange(calls, |s|) && SameEnv(e, calls) && k < |s| && Spent(e, s[k])
    ensures Spent(e, RunCalls(s, calls)[k])
    decreases |calls|
  {
    if calls != [] {
      var c := calls[0];
      if Process(e, s, c.idx, c.data).Ok? { SpentStep(e, s, c.idx, Parse(c.data).value, k); }
      AfterKeeps(s, c);
      assert CallsInRange(calls[1..], |s|);
      SpentRun(e, After(s, c), calls[1..], k);
    }
  }

  /** Once a nonce has been advanced, it cannot be advanced again under the same
      blockhash, whatever instructions come between. */
  lemma OneAdvancePerBlockhash(e: Env, s: Accts, idx: seq<nat>, calls: seq<Call>, again: seq<nat>)
    requires InRange(idx, |s|) && CallsInRange(calls, |s|) && InRange(again, |s|) && SameEnv(e, calls)
    requires ExecAdvance(e, s, idx).Ok? && |again| > 0 && again[0] == idx[0]
    ensures |ExecAdvance(e, s, idx).value| == |s|
    ensures ExecAdvance(e, RunCalls(ExecAdvance(e, s, idx).value, calls), again).Err?
  {
    var t := ExecAdvance(e, s, idx).value;
    assert NonceInit(s[idx[0]]);
    assert t[idx[0]].data[40..72] == e.blockhash;
    SpentRun(e, t, calls, idx[0]);
    var u := RunCalls(t, calls);
    if ExecAdvance(e, u, again).Ok? { TagByte(u[idx[0]].data); }
  }

  // ---------------------------------------------- accounts of other programs

  /** An account of another program keeps its owner, and its data unless it is an
      initialized nonce whose authority signed. Its balance is not protected by its
      owner: it changes as PaymentExact and DebitsAuthorized say. */
  lemma ForeignStep(e: Env, s: Accts, idx: seq<nat>, op: Instr, k: nat)
    requires InRange(idx, |s|) && k < |s| && Exec(e, s, idx, op).Ok? && s[k].owner != PROGRAM_ID
    ensures var t := Exec(e, s, idx, op).value;
      && |t| == |s| && t[k].owner == s[k].owner
      && (t[k].data != s[k].data ==> NonceInit(s[k]) && Entitled(s, idx, op, k))
  {
    OwnerStep(e, s, idx, op, k);
    ForeignData(e, s, idx, op, k);
  }

  lemma ForeignData(e: Env, s: Accts, idx: seq<nat>, op: Instr, k: nat)
    requires InRange(idx, |s|) && k < |s| && Exec(e, s, idx, op).Ok? && s[k].owner != PROGRAM_ID
    ensures var t := Exec(e, s, idx, op).value;
      |t| == |s| && (t[k].data != s[k].data ==> NonceInit(s[k]) && Entitled(s, idx, op, k))
  {
    if OneAccount(op) { ForeignUpdate(e, s, idx, op, k); } else { ForeignPayment(e, s, idx, op, k); }
  }

  lemma ForeignUpdate(e: Env, s: Accts, idx: seq<nat>, op: Instr, k: nat)
    requires InRange(idx, |s|) && k < |s| && Exec(e, s, idx, op).Ok? && s[k].owner != PROGRAM_ID && OneAccount(op)
    ensures var t := Exec(e, s, idx, op).value;
      |t| == |s| && (t[k].data != s[k].data ==> NonceInit(s[k]) && Entitled(s, idx, op, k))
  {
  }

  lemma ForeignPayment(e: Env, s: Accts, idx: seq<nat>, op: Instr, k: nat)
    requires InRange(idx, |s|) && k < |s| && Exec(e, s, idx, op).Ok? && s[k].owner != PROGRAM_ID && !OneAccount(op)
    ensures var t := Exec(e, s, idx, op).value;
      |t| == |s| && (t[k].data != s[k].data ==> NonceInit(s[k]) && Entitled(s, idx, op, k))
  {
  }

  /** Over any run, an account of another program keeps its owner; and its data, unless
      it is an initialized nonce whose authority signs. */
  lemma {:induction false} ForeignKept(s: Accts, calls: seq<Call>, k: nat)
    requires CallsInRange(calls, |s|) && k < |s| && s[k].owner != PROGRAM_ID
    ensures RunCalls(s, calls)[k].owner == s[k].owner
    ensures (NonceInit(s[k]) ==> !Signed(s, Authority(s[k]))) ==> RunCalls(s, calls)[k].data == s[k].data
    decreases |calls|
  {
    if calls != [] {
      var c := calls[0];
      AfterKeeps(s, c);
      var t := After(s, c);
      if Process(c.env, s, c.idx, c.data).Ok? { ForeignStep(c.env, s, c.idx, Parse(c.data).value, k); }
      assert CallsInRange(calls[1..], |s|);
      ForeignKept(t, calls[1..], k);
      if NonceInit(s[k]) ==> !Signed(s, Authority(s[k])) {
        assert t[k].data == s[k].data;
        forall i | 0 <= i < |s| ensures t[i].key == s[i].key && t[i].isSigner == s[i].isSigner {
          assert Kept(s[i], t[i]);
        }
      }
    }
  }
}
