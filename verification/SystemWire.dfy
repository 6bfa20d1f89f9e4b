/** The instruction bytes of the System Program: every instruction has an encoding
    that its parser reads back, whatever bytes follow. */
module SystemWire {
  import opened Bytes
  import opened System

  function SeedBytes(seed: seq<byte>): seq<byte>
    requires |seed| <= 32
  {
    LE(|seed|, 8) + seed
  }

  predicate SeedFits(op: Instr) {
    match op
    case CreateWithSeed(_, seed, _, _, _) => |seed| <= 32
    case AllocateWithSeed(_, seed, _, _) => |seed| <= 32
    case AssignWithSeed(_, seed, _) => |seed| <= 32
    case TransferWithSeed(_, seed, _) => |seed| <= 32
    case _ => true
  }

  function Tag(op: Instr): u32 {
    match op
    case CreateAccount(_, _, _) => 0
    case Assign(_) => 1
    case Transfer(_) => 2
    case CreateWithSeed(_, _, _, _, _) => 3
    case AdvanceNonce => 4
    case WithdrawNonce(_) => 5
    case InitializeNonce(_) => 6
    case AuthorizeNonce(_) => 7
    case Allocate(_) => 8
    case AllocateWithSeed(_, _, _, _) => 9
    case AssignWithSeed(_, _, _) => 10
    case TransferWithSeed(_, _, _) => 11
  }

  function Params(op: Instr): seq<byte>
    requires SeedFits(op)
  {
    match op
    case CreateAccount(n, space, owner) => LE(n, 8) + LE(space, 8) + owner
    case Assign(owner) => owner
    case Transfer(n) => LE(n, 8)
    case CreateWithSeed(base, seed, n, space, owner) => base + SeedBytes(seed) + (LE(n, 8) + LE(space, 8) + owner)
    case AdvanceNonce => []
    case WithdrawNonce(n) => LE(n, 8)
    case InitializeNonce(a) => a
    case AuthorizeNonce(a) => a
    case Allocate(space) => LE(space, 8)
    case AllocateWithSeed(base, seed, space, owner) => base + SeedBytes(seed) + (LE(space, 8) + owner)
    case AssignWithSeed(base, seed, owner) => base + SeedBytes(seed) + owner
    case TransferWithSeed(n, seed, owner) => LE(n, 8) + SeedBytes(seed) + owner
  }

  function Encode(op: Instr): seq<byte>
    requires SeedFits(op)
  {
    LE(Tag(op), 4) + Params(op)
  }

  lemma TagRead(tag: u32, rest: seq<byte>)
    ensures var data := LE(tag, 4) + rest; Read4(data[..4]) == tag && data[4..] == rest
  {
    var data := LE(tag, 4) + rest;
    assert data[..4] == LE(tag, 4);
    LE4(tag);
  }

  lemma Fields8(a: u64, rest: seq<byte>)
    ensures var d := LE(a, 8) + rest; |d| >= 8 && Read8(d[..8]) == a && d[8..] == rest
  {
    var d := LE(a, 8) + rest;
    assert d[..8] == LE(a, 8);
    LE8(a);
  }

  /** A string of fields: a 32-byte or 8-byte head, the framed seed, and the rest. */
  lemma SeedFields(head: seq<byte>, seed: seq<byte>, rest: seq<byte>)
    requires |seed| <= 32
    ensures var (d, h) := (head + SeedBytes(seed) + rest, |head|);
      && |d| == h + 8 + |seed| + |rest| && d[..h] == head && Read8(d[h..h + 8]) == |seed|
      && d[h + 8..h + 8 + |seed|] == seed && d[h + 8 + |seed|..] == rest
  {
    var (d, h) := (head + SeedBytes(seed) + rest, |head|);
    assert d[h..h + 8] == LE(|seed|, 8);
    LE8(|seed|);
  }

  lemma Slice(d: seq<byte>, o: nat, rest: seq<byte>, i: nat, j: nat)
    requires o <= |d| && d[o..] == rest && i <= j <= |rest|
    ensures d[o + i..o + j] == rest[i..j]
  {
    assert d[o..][i..j] == d[o + i..o + j];
  }

  lemma TwoWords(a: u64, b: u64, owner: Pubkey, tail: seq<byte>)
    ensures var r := LE(a, 8) + LE(b, 8) + owner + tail;
      Read8(r[..8]) == a && Read8(r[8..16]) == b && r[16..48] == owner
  {
    var r := LE(a, 8) + LE(b, 8) + owner + tail;
    assert r[..8] == LE(a, 8) && r[8..16] == LE(b, 8);
    LE8(a);
    LE8(b);
  }

  lemma CreateWithSeedParses(base: Pubkey, seed: seq<byte>, n: u64, space: u64, owner: Pubkey, tail: seq<byte>)
    requires |seed| <= 32
    ensures ParseCreateWithSeed(base + SeedBytes(seed) + (LE(n, 8) + LE(space, 8) + owner + tail))
         == Ok(CreateWithSeed(base, seed, n, space, owner))
  {
    var rest := LE(n, 8) + LE(space, 8) + owner + tail;
    var (d, o) := (base + SeedBytes(seed) + rest, 40 + |seed|);
    SeedFields(base, seed, rest);
    TwoWords(n, space, owner, tail);
    Slice(d, o, rest, 0, 8);
    Slice(d, o, rest, 8, 16);
    Slice(d, o, rest, 16, 48);
  }

  lemma AllocateWithSeedParses(base: Pubkey, seed: seq<byte>, space: u64, owner: Pubkey, tail: seq<byte>)
    requires |seed| <= 32
    ensures ParseAllocateWithSeed(base + SeedBytes(seed) + (LE(space, 8) + owner + tail))
         == Ok(AllocateWithSeed(base, seed, space, owner))
  {
    var rest := LE(space, 8) + owner + tail;
    var (d, o) := (base + SeedBytes(seed) + rest, 40 + |seed|);
    SeedFields(base, seed, rest);
    Fields8(space, owner + tail);
    assert rest == LE(space, 8) + (owner + tail) && rest[8..40] == owner;
    Slice(d, o, rest, 0, 8);
    Slice(d, o, rest, 8, 40);
  }

  lemma AssignWithSeedParses(base: Pubkey, seed: seq<byte>, owner: Pubkey, tail: seq<byte>)
    requires |seed| <= 32
    ensures ParseAssignWithSeed(base + SeedBytes(seed) + (owner + tail)) == Ok(AssignWithSeed(base, seed, owner))
  {
    var (d, o) := (base + SeedBytes(seed) + (owner + tail), 40 + |seed|);
    SeedFields(base, seed, owner + tail);
    Slice(d, o, owner + tail, 0, 32);
  }

  lemma TransferWithSeedParses(n: u64, seed: seq<byte>, owner: Pubkey, tail: seq<byte>)
    requires |seed| <= 32
    ensures ParseTransferWithSeed(LE(n, 8) + SeedBytes(seed) + (owner + tail)) == Ok(TransferWithSeed(n, seed, owner))
  {
    var (d, o) := (LE(n, 8) + SeedBytes(seed) + (owner + tail), 16 + |seed|);
    SeedFields(LE(n, 8), seed, owner + tail);
    LE8(n);
    Slice(d, o, owner + tail, 0, 32);
  }

  /** Every instruction whose seed fits is parsed back from its encoding. */
  lemma ParseRoundTrip(op: Instr, tail: seq<byte>)
    requires SeedFits(op)
    ensures Parse(Encode(op) + tail) == Ok(op)
  {
    Assoc(LE(Tag(op), 4), Params(op), tail);
    TagRead(Tag(op), Params(op) + tail);
    if op.CreateWithSeed? || op.AllocateWithSeed? || op.AssignWithSeed? || op.TransferWithSeed? {
      SeededParse(op, tail);
      ParseSeeded(LE(Tag(op), 4) + (Params(op) + tail), op, Params(op) + tail);
    } else {
      PlainParse(op, tail);
      ParsePlain(LE(Tag(op), 4) + (Params(op) + tail), op, Params(op) + tail);
    }
  }

  /** The parsers of the four instructions with a seed. */
  predicate SeededIs(op: Instr, d: seq<byte>) {
    match op
    case CreateWithSeed(_, _, _, _, _) => ParseCreateWithSeed(d) == Ok(op)
    case AllocateWithSeed(_, _, _, _) => ParseAllocateWithSeed(d) == Ok(op)
    case AssignWithSeed(_, _, _) => ParseAssignWithSeed(d) == Ok(op)
    case TransferWithSeed(_, _, _) => ParseTransferWithSeed(d) == Ok(op)
    case _ => false
  }

  lemma SeededParse(op: Instr, tail: seq<byte>)
    requires SeedFits(op)
    requires op.CreateWithSeed? || op.AllocateWithSeed? || op.AssignWithSeed? || op.TransferWithSeed?
    ensures SeededIs(op, Params(op) + tail)
  {
    match op
    case CreateWithSeed(base, seed, n, space, owner) =>
      Assoc(base + SeedBytes(seed), LE(n, 8) + LE(space, 8) + owner, tail);
      CreateWithSeedParses(base, seed, n, space, owner, tail);
    case AllocateWithSeed(base, seed, space, owner) =>
      Assoc(base + SeedBytes(seed), LE(space, 8) + owner, tail);
      AllocateWithSeedParses(base, seed, space, owner, tail);
    case AssignWithSeed(base, seed, owner) =>
      Assoc(base + SeedBytes(seed), owner, tail);
      AssignWithSeedParses(base, seed, owner, tail);
    case TransferWithSeed(n, seed, owner) =>
      Assoc(LE(n, 8) + SeedBytes(seed), owner, tail);
      TransferWithSeedParses(n, seed, owner, tail);
  }

  lemma ParseSeeded(data: seq<byte>, op: Instr, d: seq<byte>)
    requires |data| >= 4 && Read4(data[..4]) == Tag(op) && data[4..] == d && SeededIs(op, d)
    ensures Parse(data) == Ok(op)
  {
  }

  /** The fields of the eight others, where the parser looks for them. */
  predicate PlainIs(op: Instr, d: seq<byte>) {
    match op
    case CreateAccount(n, space, owner) =>
      |d| >= 48 && Read8(d[..8]) == n && Read8(d[8..16]) == space && d[16..48] == owner
    case Transfer(n) => |d| >= 8 && Read8(d[..8]) == n
    case WithdrawNonce(n) => |d| >= 8 && Read8(d[..8]) == n
    case Allocate(n) => |d| >= 8 && Read8(d[..8]) == n
    case Assign(a) => |d| >= 32 && d[..32] == a
    case InitializeNonce(a) => |d| >= 32 && d[..32] == a
    case AuthorizeNonce(a) => |d| >= 32 && d[..32] == a
    case AdvanceNonce => true
    case _ => false
  }

  lemma PlainParse(op: Instr, tail: seq<byte>)
    requires !(op.CreateWithSeed? || op.AllocateWithSeed? || op.AssignWithSeed? || op.TransferWithSeed?)
    ensures PlainIs(op, Params(op) + tail)
  {
    match op
    case CreateAccount(n, space, owner) => TwoWords(n, space, owner, tail);
    case Transfer(n) => Fields8(n, tail);
    case WithdrawNonce(n) => Fields8(n, tail);
    case Allocate(n) => Fields8(n, tail);
    case _ =>
  }

  lemma ParsePlain(data: seq<byte>, op: Instr, d: seq<byte>)
    requires |data| >= 4 && Read4(data[..4]) == Tag(op) && data[4..] == d && PlainIs(op, d)
    ensures Parse(data) == Ok(op)
  {
  }
}
