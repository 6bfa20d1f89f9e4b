/** The instruction set as its manual would state it: for every opcode, by number, what
    one turn of the interpreter does (pkg/svm/sbpf/vm.go). The instruction is the bits of
    its word; operations are relations between numbers; memory is one byte per address. */
module VmManual {
  import opened Bytes
  import opened VmMemory
  import opened VmIsa
  import opened Vm
  import VmFlat

  // ------------------------------------------------------------- the word, the price

  /** The word with these fields. */
  function Spelled(i: Ins): int {
    i.op + 0x100 * i.dst + 0x1000 * i.src
    + 0x1_0000 * (if i.off >= 0 then i.off else i.off + 0x1_0000)
    + 0x1_0000_0000 * (if i.imm >= 0 then i.imm else i.imm + 0x1_0000_0000)
  }

  /** Every word has one reading: opcode in bits 0 to 7, destination in 8 to 11, source in
      12 to 15, signed offset in 16 to 31 and signed immediate in 32 to 63. */
  lemma Fields(word: u64, i: Ins)
    ensures Decode(word) == i <==> word == Spelled(i) && i.dst < 16 && i.src < 16
  {
    if word == Spelled(i) && i.dst < 16 && i.src < 16 { DecodeEncode(i); }
    WordDigits(word);
  }

  lemma WordDigits(word: u64)
    ensures word == Spelled(Decode(word))
  {
    var (w1, w2) := (word / 0x100, word / 0x1000);
    assert word == 0x100 * w1 + word % 0x100;
    assert w1 == 0x10 * w2 + w1 % 0x10 by { assert w2 == w1 / 0x10; }
    var w3 := word / 0x1_0000;
    assert w2 == 0x10 * w3 + w2 % 0x10 by { assert w3 == w2 / 0x10; }
    var w4 := word / 0x1_0000_0000;
    assert w3 == 0x1_0000 * w4 + w3 % 0x1_0000 by { assert w4 == w3 / 0x1_0000; }
  }

  /** The next instruction, with registers that exist. */
  ghost predicate Holds(p: Prog, s: State, i: Ins) {
    0 <= s.pc < |p.text| && Decode(p.text[s.pc]) == i && i.dst <= 10 && i.src <= 10
  }

  /** The compute units of an opcode: divisions and remainders 12, products 4, memory and
      wide loads 2, calls 5, everything else 1. */
  function Price(op: byte): nat {
    if Divides(op) then 12
    else if op == 0x24 || op == 0x2c || op == 0x27 || op == 0x2f then 4
    else if IsMemory(op) || op == 0x18 then 2
    else if op == 0x85 then 5
    else 1
  }

  predicate Divides(op: byte) {
    || op == 0x34 || op == 0x3c || op == 0x37 || op == 0x3f
    || op == 0x94 || op == 0x9c || op == 0x97 || op == 0x9f
  }

  /** Loads, stores of immediates and stores of registers, of 4, 2, 1 and 8 bytes. */
  predicate IsMemory(op: byte) {
    || op == 0x61 || op == 0x69 || op == 0x71 || op == 0x79
    || op == 0x62 || op == 0x6a || op == 0x72 || op == 0x7a
    || op == 0x63 || op == 0x6b || op == 0x73 || op == 0x7b
  }

  /** The opcodes of the machine. */
  predicate Exists(op: byte) {
    || IsAlu64(op) || IsAlu32(op) || IsJump64(op) || IsJump32(op) || IsMemory(op)
    || op == 0x18 || op == 0x05 || op == 0x85 || op == 0x95
  }

  predicate IsAlu64(op: byte) {
    || op == 0x07 || op == 0x0f || op == 0x17 || op == 0x1f || op == 0x27 || op == 0x2f
    || op == 0x37 || op == 0x3f || op == 0x47 || op == 0x4f || op == 0x57 || op == 0x5f
    || op == 0x67 || op == 0x6f || op == 0x77 || op == 0x7f || op == 0x87
    || op == 0x97 || op == 0x9f || op == 0xa7 || op == 0xaf
    || op == 0xb7 || op == 0xbf || op == 0xc7 || op == 0xcf
  }

  predicate IsAlu32(op: byte) {
    || op == 0x04 || op == 0x0c || op == 0x14 || op == 0x1c || op == 0x24 || op == 0x2c
    || op == 0x34 || op == 0x3c || op == 0x44 || op == 0x4c || op == 0x54 || op == 0x5c
    || op == 0x64 || op == 0x6c || op == 0x74 || op == 0x7c || op == 0x84
    || op == 0x94 || op == 0x9c || op == 0xa4 || op == 0xac
    || op == 0xb4 || op == 0xbc || op == 0xc4 || op == 0xcc
  }

  predicate IsJump64(op: byte) {
    || op == 0x15 || op == 0x1d || op == 0x25 || op == 0x2d || op == 0x35 || op == 0x3d
    || op == 0x45 || op == 0x4d || op == 0x55 || op == 0x5d || op == 0x65 || op == 0x6d || op == 0x75 || op == 0x7d
    || op == 0xa5 || op == 0xad || op == 0xb5 || op == 0xbd || op == 0xc5 || op == 0xcd || op == 0xd5 || op == 0xdd
  }

  predicate IsJump32(op: byte) {
    || op == 0x16 || op == 0x1e || op == 0x26 || op == 0x2e || op == 0x36 || op == 0x3e
    || op == 0x46 || op == 0x4e || op == 0x56 || op == 0x5e || op == 0x66 || op == 0x6e || op == 0x76 || op == 0x7e
    || op == 0xa6 || op == 0xae || op == 0xb6 || op == 0xbe || op == 0xc6 || op == 0xce || op == 0xd6 || op == 0xde
  }

  lemma CostTable(op: byte)
    requires Exists(op)
    ensures Cost(op) == Price(op)
  {
    if IsAlu64(op) { CostOfAlu64(op); }
    else if IsAlu32(op) { CostOfAlu32(op); }
    else if IsJump64(op) { CostOfJump64(op); }
    else if IsJump32(op) { CostOfJump32(op); }
  }

  lemma Costs1(op: byte)
    requires IsJump64(op) || IsJump32(op) || op == 0x05 || op == 0x95
    ensures Cost(op) == 1 == Price(op)
  {
    if IsJump64(op) { CostOfJump64(op); } else if IsJump32(op) { CostOfJump32(op); }
  }

  lemma Costs2(op: byte)
    requires IsMemory(op) || op == 0x18
    ensures Cost(op) == 2 == Price(op)
  {
  }

  lemma Costs5(op: byte)
    requires op == 0x85
    ensures Cost(op) == 5 == Price(op)
  {
  }

  lemma CostOfAlu64(op: byte)
    requires IsAlu64(op)
    ensures Cost(op) == Price(op)
  {
  }

  lemma CostOfAlu32(op: byte)
    requires IsAlu32(op)
    ensures Cost(op) == Price(op)
  {
  }

  lemma CostOfJump64(op: byte)
    requires IsJump64(op)
    ensures Cost(op) == 1 == Price(op)
  {
  }

  lemma CostOfJump32(op: byte)
    requires IsJump32(op)
    ensures Cost(op) == 1 == Price(op)
  {
  }

  /** The state once the instruction is paid. */
  function PaidFor(s: State, op: byte): State
    requires Price(op) <= s.remaining
  {
    s.(remaining := s.remaining - Price(op))
  }

  /** The instruction exists and can be paid. */
  ghost predicate Runs(p: Prog, s: State, i: Ins) {
    Holds(p, s, i) && Exists(i.op) && Price(i.op) <= s.remaining
  }

  lemma StepRuns(p: Prog, s: State, i: Ins, paid: State)
    requires Runs(p, s, i) && paid == PaidFor(s, i.op)
    ensures Step(p, s) == Execute(p, i, paid)
  {
    CostTable(i.op);
    StepExecutes(p, s, i, paid);
  }

  lemma StepExecutes(p: Prog, s: State, i: Ins, paid: State)
    requires 0 <= s.pc < |p.text| && Decode(p.text[s.pc]) == i && i.dst <= 10 && i.src <= 10
    requires Cost(i.op) <= s.remaining && paid == s.(remaining := s.remaining - Cost(i.op))
    ensures Step(p, s) == Execute(p, i, paid)
  {
  }

  /** An instruction that cannot be paid empties the meter; */
  lemma Unaffordable(p: Prog, s: State, i: Ins)
    requires Holds(p, s, i) && Exists(i.op) && s.remaining < Price(i.op)
    ensures Step(p, s) == Fail(ComputeExceeded, s.(remaining := 0))
  {
    CostTable(i.op);
  }

  /** and one that does not exist stops the machine. */
  lemma NoSuchOpcode(p: Prog, s: State, i: Ins)
    requires Holds(p, s, i) && !Exists(i.op)
    ensures Step(p, s).Fail? && (Step(p, s).e == InvalidInstruction || Step(p, s).e == ComputeExceeded)
  {
    if s.remaining >= Cost(i.op) {
      var paid := s.(remaining := s.remaining - Cost(i.op));
      StepExecutes(p, s, i, paid);
      UnknownFails(p, i, paid);
    }
  }

  lemma UnknownFails(p: Prog, i: Ins, s: State)
    requires 0 <= s.pc < |p.text| && i.dst <= 10 && i.src <= 10 && !Exists(i.op)
    ensures Execute(p, i, s) == Fail(InvalidInstruction, s)
  {
    var class_ := i.op % 8;
    if class_ == 4 || class_ == 7 { UnknownAlu(i.op, s.regs[i.dst], s.regs[i.src], i.imm); }
    else if class_ == 5 || class_ == 6 { UnknownJump(i.op, s.regs[i.dst], s.regs[i.src], i.imm); }
  }

  lemma UnknownAlu(op: byte, d: u64, src: u64, imm: i32)
    requires (op % 8 == 4 || op % 8 == 7) && !Exists(op)
    ensures Alu(op, d, src, imm) == Illegal
  {
    Nibbles(op);
    var h, r := op / 16, op / 8 % 2;
    if h <= 12 && !(h == 8 && r == 1) {
      if op % 8 == 7 { Alu64Exists(op, h, r); } else { Alu32Exists(op, h, r); }
    }
  }

  lemma Alu64Exists(op: byte, h: nat, r: nat)
    requires h <= 12 && r <= 1 && op == 16 * h + 8 * r + 7 && !(h == 8 && r == 1)
    ensures IsAlu64(op)
  {
  }

  lemma Alu32Exists(op: byte, h: nat, r: nat)
    requires h <= 12 && r <= 1 && op == 16 * h + 8 * r + 4 && !(h == 8 && r == 1)
    ensures IsAlu32(op)
  {
  }

  /** The opcode by its high nibble, its form and its class. */
  lemma Nibbles(op: byte)
    ensures op == 16 * (op / 16) + 8 * (op / 8 % 2) + op % 8
  {
  }

  predicate Compares(h: nat) {
    1 <= h <= 7 || 10 <= h <= 13
  }

  lemma UnknownJump(op: byte, d: u64, src: u64, imm: i32)
    requires (op % 8 == 5 || op % 8 == 6) && !Exists(op)
    ensures Taken(op, d, src, imm) == None
  {
    Nibbles(op);
    var h, r := op / 16, op / 8 % 2;
    if Compares(h) { JumpExists(op, h, r); }
  }

  lemma JumpExists(op: byte, h: nat, r: nat)
    requires Compares(h) && r <= 1 && (op == 16 * h + 8 * r + 5 || op == 16 * h + 8 * r + 6)
    ensures IsJump64(op) || IsJump32(op)
  {
  }

  // -------------------------------------------------------------------- numbers

  /** Congruence modulo 2^64 and 2^32. */
  predicate Same64(x: int, y: int) {
    (x - y) % 0x1_0000_0000_0000_0000 == 0
  }

  predicate Same32(x: int, y: int) {
    (x - y) % 0x1_0000_0000 == 0
  }

  /** The value that a bit pattern below 2 * half has in two's complement. */
  function Signed(x: int, half: int): int {
    if x < half then x else x - 2 * half
  }

  predicate BitAt(x: nat, k: nat)
    decreases k
  {
    if k == 0 then x % 2 == 1 else BitAt(x / 2, k - 1)
  }

  /** v is x divided by n, rounded down. */
  predicate Floor(v: int, x: int, n: int) {
    v * n <= x < (v + 1) * n
  }

  /** The second operand: a register, or the sign-extended immediate; a 64-bit division by
      an immediate takes it as unsigned. */
  function Operand64(i: Ins, src: u64): u64 {
    if i.op % 16 >= 8 then src
    else if i.imm >= 0 then i.imm
    else if i.op == 0x37 || i.op == 0x97 then i.imm + 0x1_0000_0000
    else i.imm + 0x1_0000_0000_0000_0000
  }

  function Operand32(i: Ins, src: u64): u32 {
    if i.op % 16 >= 8 then src % 0x1_0000_0000
    else if i.imm >= 0 then i.imm
    else i.imm + 0x1_0000_0000
  }

  // ----------------------------------------------------------------- arithmetic

  /** What a 64-bit opcode makes of a and b. */
  ghost predicate Makes64(op: byte, a: int, b: int, v: nat) {
    if op == 0x07 || op == 0x0f then Same64(v, a + b)
    else if op == 0x17 || op == 0x1f then Same64(v, a - b)
    else if op == 0x27 || op == 0x2f then Same64(v, a * b)
    else if op == 0x37 || op == 0x3f then Floor(v, a, b)
    else if op == 0x47 || op == 0x4f then Either(a, b, v, 64)
    else if op == 0x57 || op == 0x5f then Both(a, b, v, 64)
    else if op == 0x67 || op == 0x6f then Same64(v, a * Pow2(b % 64))
    else if op == 0x77 || op == 0x7f then Floor(v, a, Pow2(b % 64))
    else if op == 0x87 then Same64(v, -a)
    else if op == 0x97 || op == 0x9f then Remains(v, a, b)
    else if op == 0xa7 || op == 0xaf then Differ(a, b, v, 64)
    else if op == 0xb7 || op == 0xbf then v == b
    else Floor(Signed(v, 0x8000_0000_0000_0000), Signed(a, 0x8000_0000_0000_0000), Pow2(b % 64))
  }

  /** What a 32-bit opcode makes of the low halves a and b. */
  ghost predicate Makes32(op: byte, a: int, b: int, v: nat) {
    if op == 0x04 || op == 0x0c then Same32(v, a + b)
    else if op == 0x14 || op == 0x1c then Same32(v, a - b)
    else if op == 0x24 || op == 0x2c then Same32(v, a * b)
    else if op == 0x34 || op == 0x3c then Floor(v, a, b)
    else if op == 0x44 || op == 0x4c then Either(a, b, v, 32)
    else if op == 0x54 || op == 0x5c then Both(a, b, v, 32)
    else if op == 0x64 || op == 0x6c then Same32(v, a * Pow2(b % 32))
    else if op == 0x74 || op == 0x7c then Floor(v, a, Pow2(b % 32))
    else if op == 0x84 then Same32(v, -a)
    else if op == 0x94 || op == 0x9c then Remains(v, a, b)
    else if op == 0xa4 || op == 0xac then Differ(a, b, v, 32)
    else if op == 0xb4 || op == 0xbc then v == b
    else Floor(Signed(v, 0x8000_0000), Signed(a, 0x8000_0000), Pow2(b % 32))
  }

  ghost predicate Either(a: int, b: int, v: nat, n: nat) {
    a >= 0 && b >= 0 && forall k: nat :: k < n ==> (BitAt(v, k) <==> BitAt(a, k) || BitAt(b, k))
  }

  ghost predicate Both(a: int, b: int, v: nat, n: nat) {
    a >= 0 && b >= 0 && forall k: nat :: k < n ==> (BitAt(v, k) <==> BitAt(a, k) && BitAt(b, k))
  }

  ghost predicate Differ(a: int, b: int, v: nat, n: nat) {
    a >= 0 && b >= 0 && forall k: nat :: k < n ==> (BitAt(v, k) <==> (BitAt(a, k) <==> !BitAt(b, k)))
  }

  /** v is what a leaves when divided by b. */
  ghost predicate Remains(v: int, a: int, b: int) {
    0 <= v < b && exists q: int :: Quotes(q, v, a, b)
  }

  predicate Quotes(q: int, v: int, a: int, b: int) {
    a == q * b + v
  }

  lemma {:induction false} BitsBit(f: BitOp, a: nat, b: nat, n: nat, k: nat)
    requires k < n
    ensures BitAt(Bits(f, a, b, n), k) <==>
      match f
      case Or => BitAt(a, k) || BitAt(b, k)
      case And => BitAt(a, k) && BitAt(b, k)
      case Xor => (BitAt(a, k) <==> !BitAt(b, k))
    decreases k
  {
    var r := Bits(f, a / 2, b / 2, n - 1);
    assert Bits(f, a, b, n) == Bit(f, a, b) + 2 * r;
    if k > 0 {
      assert (Bit(f, a, b) + 2 * r) / 2 == r;
      BitsBit(f, a / 2, b / 2, n - 1, k - 1);
    }
  }

  lemma WrapIsSame64(x: int)
    ensures Same64(Wrap64(x), x)
  {
    var q := x / 0x1_0000_0000_0000_0000;
    assert Wrap64(x) - x == 0x1_0000_0000_0000_0000 * -q;
  }

  lemma WrapIsSame32(x: int)
    ensures Same32(Wrap32(x), x)
  {
    var q := x / 0x1_0000_0000;
    assert Wrap32(x) - x == 0x1_0000_0000 * -q;
  }

  lemma QuotientFloors(d: nat, n: nat)
    requires n > 0
    ensures Floor(Quotient(d, n), d, n) && Remains(Remainder(d, n), d, n)
  {
    DivisionBounds(d, n);
    var q := Quotient(d, n);
    assert (q + 1) * n == q * n + n;
    assert Quotes(q, Remainder(d, n), d, n);
  }

  lemma ShiftFloors64(d: u64, k: nat)
    ensures Floor(Signed(Unsigned64(ShiftDown(Signed64(d), k)), 0x8000_0000_0000_0000),
                  Signed(d, 0x8000_0000_0000_0000), Pow2(k))
  {
    ShiftDownFloors(Signed64(d), k);
  }

  lemma ShiftFloors32(d: u32, k: nat)
    ensures Floor(Signed(Unsigned32(ShiftDown(Signed32(d), k)), 0x8000_0000), Signed(d, 0x8000_0000), Pow2(k))
  {
    ShiftDownFloors(Signed32(d), k);
  }

  lemma BitOps64(a: u64, b: u64)
    ensures Either(a, b, Bits64(Or, a, b), 64) && Both(a, b, Bits64(And, a, b), 64)
    ensures Differ(a, b, Bits64(Xor, a, b), 64)
  {
    forall k: nat | k < 64 ensures BitAt(Bits64(Or, a, b), k) <==> BitAt(a, k) || BitAt(b, k) {
      BitsBit(Or, a, b, 64, k);
    }
    forall k: nat | k < 64 ensures BitAt(Bits64(And, a, b), k) <==> BitAt(a, k) && BitAt(b, k) {
      BitsBit(And, a, b, 64, k);
    }
    forall k: nat | k < 64 ensures BitAt(Bits64(Xor, a, b), k) <==> (BitAt(a, k) <==> !BitAt(b, k)) {
      BitsBit(Xor, a, b, 64, k);
    }
  }

  lemma BitOps32(a: u32, b: u32)
    ensures Either(a, b, Bits32(Or, a, b), 32) && Both(a, b, Bits32(And, a, b), 32)
    ensures Differ(a, b, Bits32(Xor, a, b), 32)
  {
    forall k: nat | k < 32 ensures BitAt(Bits32(Or, a, b), k) <==> BitAt(a, k) || BitAt(b, k) {
      BitsBit(Or, a, b, 32, k);
    }
    forall k: nat | k < 32 ensures BitAt(Bits32(And, a, b), k) <==> BitAt(a, k) && BitAt(b, k) {
      BitsBit(And, a, b, 32, k);
    }
    forall k: nat | k < 32 ensures BitAt(Bits32(Xor, a, b), k) <==> (BitAt(a, k) <==> !BitAt(b, k)) {
      BitsBit(Xor, a, b, 32, k);
    }
  }

  predicate Shifts64(op: byte) {
    op == 0x67 || op == 0x6f || op == 0x77 || op == 0x7f || op == 0xc7 || op == 0xcf
  }

  predicate IsBitOp64(op: byte) {
    op == 0x47 || op == 0x4f || op == 0x57 || op == 0x5f || op == 0xa7 || op == 0xaf
  }

  lemma Alu64Makes(op: byte, a: u64, b: u64)
    requires IsAlu64(op) && (Divides(op) ==> b != 0)
    ensures Makes64(op, a, b, Alu64(op / 16, a, b))
  {
    if Divides(op) { Division64Makes(op, a, b); }
    else if Shifts64(op) { Shift64Makes(op, a, b); }
    else if IsBitOp64(op) { BitOp64Makes(op, a, b); }
    else { Sum64Makes(op, a, b); }
  }

  lemma Division64Makes(op: byte, a: u64, b: u64)
    requires IsAlu64(op) && Divides(op) && b != 0
    ensures Makes64(op, a, b, Alu64(op / 16, a, b))
  {
    QuotientFloors(a, b);
  }

  lemma Shift64Makes(op: byte, a: u64, b: u64)
    requires IsAlu64(op) && Shifts64(op)
    ensures Makes64(op, a, b, Alu64(op / 16, a, b))
  {
    WrapIsSame64(a * Pow2(b % 64));
    QuotientFloors(a, Pow2(b % 64));
    ShiftFloors64(a, b % 64);
  }

  lemma BitOp64Makes(op: byte, a: u64, b: u64)
    requires IsAlu64(op) && IsBitOp64(op)
    ensures Makes64(op, a, b, Alu64(op / 16, a, b))
  {
    BitOps64(a, b);
  }

  lemma Sum64Makes(op: byte, a: u64, b: u64)
    requires IsAlu64(op) && !Divides(op) && !Shifts64(op) && !IsBitOp64(op)
    ensures Makes64(op, a, b, Alu64(op / 16, a, b))
  {
    WrapIsSame64(a + b);
    WrapIsSame64(a - b);
    WrapIsSame64(a * b);
    WrapIsSame64(0 - a);
  }

  predicate Shifts32(op: byte) {
    op == 0x64 || op == 0x6c || op == 0x74 || op == 0x7c || op == 0xc4 || op == 0xcc
  }

  predicate IsBitOp32(op: byte) {
    op == 0x44 || op == 0x4c || op == 0x54 || op == 0x5c || op == 0xa4 || op == 0xac
  }

  lemma Alu32Makes(op: byte, a: u32, b: u32)
    requires IsAlu32(op) && (Divides(op) ==> b != 0)
    ensures Makes32(op, a, b, Alu32(op / 16, a, b))
  {
    if Divides(op) { Division32Makes(op, a, b); }
    else if Shifts32(op) { Shift32Makes(op, a, b); }
    else if IsBitOp32(op) { BitOp32Makes(op, a, b); }
    else { Sum32Makes(op, a, b); }
  }

  lemma Division32Makes(op: byte, a: u32, b: u32)
    requires IsAlu32(op) && Divides(op) && b != 0
    ensures Makes32(op, a, b, Alu32(op / 16, a, b))
  {
    QuotientFloors(a, b);
  }

  lemma Shift32Makes(op: byte, a: u32, b: u32)
    requires IsAlu32(op) && Shifts32(op)
    ensures Makes32(op, a, b, Alu32(op / 16, a, b))
  {
    WrapIsSame32(a * Pow2(b % 32));
    QuotientFloors(a, Pow2(b % 32));
    ShiftFloors32(a, b % 32);
  }

  lemma BitOp32Makes(op: byte, a: u32, b: u32)
    requires IsAlu32(op) && IsBitOp32(op)
    ensures Makes32(op, a, b, Alu32(op / 16, a, b))
  {
    BitOps32(a, b);
  }

  lemma Sum32Makes(op: byte, a: u32, b: u32)
    requires IsAlu32(op) && !Divides(op) && !Shifts32(op) && !IsBitOp32(op)
    ensures Makes32(op, a, b, Alu32(op / 16, a, b))
  {
    WrapIsSame32(a + b);
    WrapIsSame32(a - b);
    WrapIsSame32(a * b);
    WrapIsSame32(0 - a);
  }

  /** One turn on a 64-bit arithmetic opcode: the destination holds what the table says of
      it and the operand, unless that is a division by zero; nothing else changes but the
      counter and the meter. */
  lemma Alu64Step(p: Prog, s: State, i: Ins) returns (v: u64)
    requires Runs(p, s, i) && IsAlu64(i.op)
    ensures var (a, b, paid) := (s.regs[i.dst], Operand64(i, s.regs[i.src]), PaidFor(s, i.op));
      if Divides(i.op) && b == 0 then Step(p, s) == Fail(DivideByZero, paid)
      else Step(p, s) == Next(paid.(pc := s.pc + 1, regs := s.regs[i.dst := v])) && Makes64(i.op, a, b, v)
  {
    var (a, b, paid) := (s.regs[i.dst], Operand64(i, s.regs[i.src]), PaidFor(s, i.op));
    StepRuns(p, s, i, paid);
    ExecutesAlu(p, i, paid);
    Alu64Reads(i, a, s.regs[i.src]);
    if Divides(i.op) && b == 0 { v := 0; }
    else {
      Alu64Makes(i.op, a, b);
      v := Alu64(i.op / 16, a, b);
    }
  }

  lemma Alu32Step(p: Prog, s: State, i: Ins) returns (v: u32)
    requires Runs(p, s, i) && IsAlu32(i.op)
    ensures var (a, b, paid) := (s.regs[i.dst] % 0x1_0000_0000, Operand32(i, s.regs[i.src]), PaidFor(s, i.op));
      if Divides(i.op) && b == 0 then Step(p, s) == Fail(DivideByZero, paid)
      else Step(p, s) == Next(paid.(pc := s.pc + 1, regs := s.regs[i.dst := v])) && Makes32(i.op, a, b, v)
  {
    var (a, b, paid) := (s.regs[i.dst] % 0x1_0000_0000, Operand32(i, s.regs[i.src]), PaidFor(s, i.op));
    StepRuns(p, s, i, paid);
    ExecutesAlu(p, i, paid);
    Alu32Reads(i, s.regs[i.dst], s.regs[i.src]);
    if Divides(i.op) && b == 0 { v := 0; }
    else {
      Alu32Makes(i.op, a, b);
      v := Alu32(i.op / 16, a, b);
    }
  }

  lemma ExecutesAlu(p: Prog, i: Ins, s: State)
    requires 0 <= s.pc < |p.text| && i.dst <= 10 && i.src <= 10 && (IsAlu64(i.op) || IsAlu32(i.op))
    ensures i.op % 8 == 4 || i.op % 8 == 7
    ensures Execute(p, i, s) ==
      match Alu(i.op, s.regs[i.dst], s.regs[i.src], i.imm)
      case Illegal => Fail(InvalidInstruction, s)
      case DivisionByZero => Fail(DivideByZero, s)
      case Value(v) => Next(s.(pc := s.pc + 1, regs := s.regs[i.dst := v]))
  {
    if IsAlu64(i.op) { Alu64Class(i.op); } else { Alu32Class(i.op); }
  }

  lemma Alu64Class(op: byte)
    requires IsAlu64(op)
    ensures op % 8 == 7 && op / 16 <= 12 && (op / 8 % 2 == 1 <==> op % 16 >= 8)
    ensures !(op / 16 == 8 && op % 16 >= 8) && (Divides(op) <==> op / 16 == 3 || op / 16 == 9)
  {
  }

  lemma Alu32Class(op: byte)
    requires IsAlu32(op)
    ensures op % 8 == 4 && op / 16 <= 12 && (op / 8 % 2 == 1 <==> op % 16 >= 8)
    ensures !(op / 16 == 8 && op % 16 >= 8) && (Divides(op) <==> op / 16 == 3 || op / 16 == 9)
  {
  }

  lemma Alu64Reads(i: Ins, a: u64, src: u64)
    requires IsAlu64(i.op)
    ensures i.op % 8 == 7
    ensures var b := Operand64(i, src);
      Alu(i.op, a, src, i.imm)
        == if Divides(i.op) && b == 0 then DivisionByZero
           else Value(Alu64(i.op / 16, a, b))
  {
    Alu64Class(i.op);
  }

  lemma Alu32Reads(i: Ins, d: u64, src: u64)
    requires IsAlu32(i.op)
    ensures i.op % 8 == 4
    ensures var (a, b) := (d % 0x1_0000_0000, Operand32(i, src));
      Alu(i.op, d, src, i.imm)
        == if Divides(i.op) && b == 0 then DivisionByZero else Value(Alu32(i.op / 16, a, b))
  {
    Alu32Class(i.op);
  }

  // ---------------------------------------------------------------------- jumps

  /** When a 64-bit jump is taken. */
  ghost predicate Jumps64(op: byte, a: nat, b: nat) {
    var (sa, sb) := (Signed(a, 0x8000_0000_0000_0000), Signed(b, 0x8000_0000_0000_0000));
    if op == 0x15 || op == 0x1d then a == b
    else if op == 0x25 || op == 0x2d then a > b
    else if op == 0x35 || op == 0x3d then a >= b
    else if op == 0x45 || op == 0x4d then Meet(a, b, 64)
    else if op == 0x55 || op == 0x5d then a != b
    else if op == 0x65 || op == 0x6d then sa > sb
    else if op == 0x75 || op == 0x7d then sa >= sb
    else if op == 0xa5 || op == 0xad then a < b
    else if op == 0xb5 || op == 0xbd then a <= b
    else if op == 0xc5 || op == 0xcd then sa < sb
    else sa <= sb
  }

  /** When a 32-bit jump is taken, on the low halves. */
  ghost predicate Jumps32(op: byte, a: nat, b: nat) {
    var (sa, sb) := (Signed(a, 0x8000_0000), Signed(b, 0x8000_0000));
    if op == 0x16 || op == 0x1e then a == b
    else if op == 0x26 || op == 0x2e then a > b
    else if op == 0x36 || op == 0x3e then a >= b
    else if op == 0x46 || op == 0x4e then Meet(a, b, 32)
    else if op == 0x56 || op == 0x5e then a != b
    else if op == 0x66 || op == 0x6e then sa > sb
    else if op == 0x76 || op == 0x7e then sa >= sb
    else if op == 0xa6 || op == 0xae then a < b
    else if op == 0xb6 || op == 0xbe then a <= b
    else if op == 0xc6 || op == 0xce then sa < sb
    else sa <= sb
  }

  ghost predicate Common(a: nat, b: nat, k: nat) {
    BitAt(a, k) && BitAt(b, k)
  }

  ghost predicate Meet(a: nat, b: nat, n: nat) {
    exists k: nat :: k < n && Common(a, b, k)
  }

  lemma {:induction false} CommonBit(a: nat, b: nat, n: nat)
    ensures Bits(And, a, b, n) != 0 <==> Meet(a, b, n)
    decreases n
  {
    if n > 0 {
      assert Bits(And, a, b, n) == Bit(And, a, b) + 2 * Bits(And, a / 2, b / 2, n - 1);
      CommonBit(a / 2, b / 2, n - 1);
      MeetHalves(a, b, n);
    }
  }

  lemma MeetHalves(a: nat, b: nat, n: nat)
    requires n > 0
    ensures Meet(a, b, n) <==> (a % 2 == 1 && b % 2 == 1) || Meet(a / 2, b / 2, n - 1)
  {
    if Meet(a / 2, b / 2, n - 1) {
      var k: nat :| k < n - 1 && Common(a / 2, b / 2, k);
      assert Common(a, b, k + 1);
    }
    if a % 2 == 1 && b % 2 == 1 { assert Common(a, b, 0); }
    if Meet(a, b, n) {
      var k: nat :| k < n && Common(a, b, k);
      assert k > 0 ==> Common(a / 2, b / 2, k - 1);
    }
  }

  lemma Jump64Class(op: byte)
    requires IsJump64(op)
    ensures op % 8 == 5 && (op / 8 % 2 == 1 <==> op % 16 >= 8) && Compares(op / 16)
    ensures op != 0x85 && op != 0x95
  {
  }

  lemma Jump32Class(op: byte)
    requires IsJump32(op)
    ensures op % 8 == 6 && (op / 8 % 2 == 1 <==> op % 16 >= 8) && Compares(op / 16)
    ensures op != 0x85 && op != 0x95
  {
  }

  lemma Jump64Taken(i: Ins, a: u64, src: u64)
    requires IsJump64(i.op)
    ensures i.op % 8 == 5 && Taken(i.op, a, src, i.imm) == Some(Jumps64(i.op, a, Operand64(i, src)))
  {
    Jump64Class(i.op);
    var b := Operand64(i, src);
    CommonBit(a, b, 64);
    Compare64(i.op, a, b);
  }

  lemma Compare64(op: byte, a: u64, b: u64)
    requires IsJump64(op)
    ensures Compare(op / 16, a, b, Signed64(a), Signed64(b), Meet(a, b, 64)) == Some(Jumps64(op, a, b))
  {
  }

  lemma Jump32Taken(i: Ins, d: u64, src: u64)
    requires IsJump32(i.op)
    ensures i.op % 8 == 6
    ensures Taken(i.op, d, src, i.imm) == Some(Jumps32(i.op, d % 0x1_0000_0000, Operand32(i, src)))
  {
    Jump32Class(i.op);
    var (a, b) := (d % 0x1_0000_0000, Operand32(i, src));
    CommonBit(a, b, 32);
    Compare32(i.op, a, b);
  }

  lemma Compare32(op: byte, a: u32, b: u32)
    requires IsJump32(op)
    ensures Compare(op / 16, a, b, Signed32(a), Signed32(b), Meet(a, b, 32)) == Some(Jumps32(op, a, b))
  {
  }

  lemma ExecutesJump(p: Prog, i: Ins, s: State, taken: bool)
    requires 0 <= s.pc < |p.text| && i.dst <= 10 && i.src <= 10 && (i.op % 8 == 5 || i.op % 8 == 6)
    requires i.op != 0x85 && i.op != 0x95 && Taken(i.op, s.regs[i.dst], s.regs[i.src], i.imm) == Some(taken)
    ensures Execute(p, i, s) == Next(s.(pc := if taken then s.pc + i.off + 1 else s.pc + 1))
  {
    JumpMoves(i, s, taken);
    ExecutesJumpClass(p, i, s, Jump(i, s));
  }

  lemma JumpMoves(i: Ins, s: State, taken: bool)
    requires i.dst <= 10 && i.src <= 10 && (i.op % 8 == 5 || i.op % 8 == 6)
    requires Taken(i.op, s.regs[i.dst], s.regs[i.src], i.imm) == Some(taken)
    ensures Jump(i, s) == Next(s.(pc := if taken then s.pc + i.off + 1 else s.pc + 1))
  {
  }

  lemma ExecutesJumpClass(p: Prog, i: Ins, s: State, o: Outcome)
    requires 0 <= s.pc < |p.text| && i.dst <= 10 && i.src <= 10 && (i.op % 8 == 5 || i.op % 8 == 6)
    requires i.op != 0x85 && i.op != 0x95 && o == Jump(i, s)
    ensures Execute(p, i, s) == o
  {
  }

  lemma JumpGoes(p: Prog, s: State, i: Ins, paid: State, taken: bool)
    requires Holds(p, s, i) && Cost(i.op) <= s.remaining && paid == s.(remaining := s.remaining - Cost(i.op))
    requires (i.op % 8 == 5 || i.op % 8 == 6) && i.op != 0x85 && i.op != 0x95
    requires Taken(i.op, s.regs[i.dst], s.regs[i.src], i.imm) == Some(taken)
    ensures Step(p, s) == Next(paid.(pc := if taken then s.pc + 1 + i.off else s.pc + 1))
  {
    StepExecutes(p, s, i, paid);
    ExecutesJump(p, i, paid, taken);
  }

  /** One turn on a jump: to the offset from the next instruction if its condition holds of
      the register and the operand, and to the next instruction if not. */
  lemma Jump64Step(p: Prog, s: State, i: Ins)
    requires Holds(p, s, i) && s.remaining >= 1 && IsJump64(i.op)
    ensures var taken := Jumps64(i.op, s.regs[i.dst], Operand64(i, s.regs[i.src]));
      Step(p, s) == Next(s.(remaining := s.remaining - 1).(pc := if taken then s.pc + 1 + i.off else s.pc + 1))
  {
    Costs1(i.op);
    Jump64Class(i.op);
    Jump64Taken(i, s.regs[i.dst], s.regs[i.src]);
    JumpGoes(p, s, i, s.(remaining := s.remaining - 1), Jumps64(i.op, s.regs[i.dst], Operand64(i, s.regs[i.src])));
  }

  lemma Jump32Step(p: Prog, s: State, i: Ins)
    requires Holds(p, s, i) && s.remaining >= 1 && IsJump32(i.op)
    ensures var taken := Jumps32(i.op, s.regs[i.dst] % 0x1_0000_0000, Operand32(i, s.regs[i.src]));
      Step(p, s) == Next(s.(remaining := s.remaining - 1).(pc := if taken then s.pc + 1 + i.off else s.pc + 1))
  {
    Costs1(i.op);
    Jump32Class(i.op);
    Jump32Taken(i, s.regs[i.dst], s.regs[i.src]);
    JumpGoes(p, s, i, s.(remaining := s.remaining - 1),
      Jumps32(i.op, s.regs[i.dst] % 0x1_0000_0000, Operand32(i, s.regs[i.src])));
  }

  lemma AlwaysStep(p: Prog, s: State, i: Ins)
    requires Holds(p, s, i) && s.remaining >= 1 && i.op == 0x05
    ensures Step(p, s) == Next(s.(remaining := s.remaining - 1).(pc := s.pc + 1 + i.off))
  {
    var paid := s.(remaining := s.remaining - 1);
    Costs1(i.op);
    StepExecutes(p, s, i, paid);
    ExecutesJump(p, i, paid, true);
  }

  // ------------------------------------------------------------ calls and the rest

  /** A call to code: by the registered hash, or else relative if the source field is 1.
      It saves R10, R6 to R9 and the next instruction, and moves R10 on by a frame and a
      gap. */
  lemma CallStep(p: Prog, s: State, i: Ins)
    requires Holds(p, s, i) && s.remaining >= 5 && i.op == 0x85
    requires var hash := if i.imm >= 0 then i.imm else i.imm + 0x1_0000_0000; p.syscalls(hash).None?
    ensures var hash := if i.imm >= 0 then i.imm else i.imm + 0x1_0000_0000;
      var paid := s.(remaining := s.remaining - 5);
      if hash !in p.functions && i.src != 1 then Step(p, s) == Fail(UnknownCall, paid)
      else if |s.frames| >= 64 then Step(p, s) == Fail(CallDepthExceeded, paid)
      else Step(p, s) == Next(paid.(
        pc := if hash in p.functions then Signed(p.functions[hash], 0x8000_0000_0000_0000) else s.pc + 1 + i.imm,
        frames := s.frames + [Frame(s.regs[10], [s.regs[6], s.regs[7], s.regs[8], s.regs[9]], s.pc + 1)],
        regs := s.regs[10 := Wrap64((s.regs[10] as int) + 8192)]))
  {
    var paid := s.(remaining := s.remaining - 5);
    Costs5(i.op);
    StepExecutes(p, s, i, paid);
    assert s.regs[6..10] == [s.regs[6], s.regs[7], s.regs[8], s.regs[9]];
    ExecutesCode(p, i, paid);
  }

  lemma ExecutesCode(p: Prog, i: Ins, s: State)
    requires 0 <= s.pc < |p.text| && i.dst <= 10 && i.src <= 10 && i.op == 0x85
    requires p.syscalls(Unsigned32(i.imm)).None?
    ensures var hash := Unsigned32(i.imm);
      Execute(p, i, s) == if hash in p.functions then Push(s, Signed64(p.functions[hash]))
        else if i.src == 1 then Push(s, s.pc + i.imm + 1) else Fail(UnknownCall, s)
  {
  }

  /** A return puts R6 to R9, R10 and the counter back as the last call saved them; with
      nothing to return to, the machine halts. */
  lemma ExitStep(p: Prog, s: State, i: Ins)
    requires Holds(p, s, i) && s.remaining >= 1 && i.op == 0x95
    ensures var paid := s.(remaining := s.remaining - 1);
      if s.frames == [] then Step(p, s) == Halt(paid)
      else var f := s.frames[|s.frames| - 1];
        Step(p, s) == Next(paid.(pc := f.ret, frames := s.frames[..|s.frames| - 1],
          regs := s.regs[6 := f.saved[0]][7 := f.saved[1]][8 := f.saved[2]][9 := f.saved[3]][10 := f.ptr]))
  {
    var paid := s.(remaining := s.remaining - 1);
    Costs1(i.op);
    StepExecutes(p, s, i, paid);
    assert Execute(p, i, paid) == Exit(paid);
    if s.frames != [] {
      var f := s.frames[|s.frames| - 1];
      assert Restored(s.regs, f)
        == s.regs[6 := f.saved[0]][7 := f.saved[1]][8 := f.saved[2]][9 := f.saved[3]][10 := f.ptr];
    }
  }

  /** The wide load takes its high half from the next word, which it skips. */
  lemma WideStep(p: Prog, s: State, i: Ins)
    requires Holds(p, s, i) && s.remaining >= 2 && i.op == 0x18
    ensures var paid := s.(remaining := s.remaining - 2);
      if s.pc + 1 >= |p.text| || i.dst == 10 then Step(p, s) == Fail(InvalidInstruction, paid)
      else
        var low: u32 := if i.imm >= 0 then i.imm else i.imm + 0x1_0000_0000;
        var high: u32 := p.text[s.pc + 1] / 0x1_0000_0000;
        Step(p, s) == Next(paid.(pc := s.pc + 2, regs := s.regs[i.dst := low + 0x1_0000_0000 * high]))
  {
    var paid := s.(remaining := s.remaining - 2);
    Costs2(i.op);
    StepExecutes(p, s, i, paid);
    assert Execute(p, i, paid) == LoadWide(p, i, paid);
  }

  // ---------------------------------------------------------------------- memory

  /** What stands where: program, stack in frames of 4 KB with gaps between them, heap and
      input, each 4 GB apart; nothing anywhere else. */
  lemma MemoryMap(m: Mem, k: nat)
    requires m.Valid() && k < 0x1_0000_0000
    ensures ByteAt(m, 0x1_0000_0000 + k) == (if k < |m.ro| then Some(m.ro[k]) else None)
    ensures var (frame, at) := (k / 8192, k % 8192);
      ByteAt(m, 0x2_0000_0000 + k) == if frame < 64 && at < 4096 then Some(m.stack[4096 * frame + at]) else None
    ensures ByteAt(m, 0x3_0000_0000 + k) == (if k < |m.heap| then Some(m.heap[k]) else None)
    ensures ByteAt(m, 0x4_0000_0000 + k) == (if k < |m.input| then Some(m.input[k]) else None)
    ensures ByteAt(m, k) == None
  {
    InRegion(1, k);
    InRegion(2, k);
    InRegion(3, k);
    InRegion(4, k);
    InRegion(0, k);
  }

  lemma InRegion(r: nat, k: nat)
    requires k < 0x1_0000_0000
    ensures Hi(0x1_0000_0000 * r + k) == r && Lo(0x1_0000_0000 * r + k) == k
  {
  }

  /** Addresses from the fifth region on are not mapped. */
  lemma NothingAbove(m: Mem, a: int)
    requires a >= 0x5_0000_0000
    ensures ByteAt(m, a) == None
  {
  }

  /** Byte, half-word, word and double-word. */
  function Size(op: byte): nat {
    if op == 0x71 || op == 0x72 || op == 0x73 then 1
    else if op == 0x69 || op == 0x6a || op == 0x6b then 2
    else if op == 0x61 || op == 0x62 || op == 0x63 then 4
    else 8
  }

  predicate IsLoad(op: byte) {
    op == 0x61 || op == 0x69 || op == 0x71 || op == 0x79
  }

  predicate IsStore(op: byte) {
    || op == 0x62 || op == 0x6a || op == 0x72 || op == 0x7a
    || op == 0x63 || op == 0x6b || op == 0x73 || op == 0x7b
  }

  /** The address is a multiple of the size, and every byte is mapped. */
  ghost predicate Reaches(m: Mem, at: u64, n: nat)
    requires n > 0
  {
    at % n == 0 && AllMapped(m, at, n)
  }

  /** v is the number that stands in n bytes at the address. */
  ghost predicate Stands(m: Mem, at: u64, n: nat, v: nat) {
    v < Pow256(n) && forall k: nat :: k < n ==> ByteAt(m, at + k) == Some(ByteOf(v, k))
  }

  lemma LoadWidths(op: byte)
    requires IsLoad(op)
    ensures AccessWidth(op, 1) == Size(op)
  {
  }

  lemma AlignedIs(x: nat, n: nat)
    requires Width(n)
    ensures Aligned(x, n) <==> x % n == 0
  {
  }

  lemma LoadClass(op: byte)
    requires IsLoad(op)
    ensures op % 8 == 1
  {
  }

  lemma ExecutesLoad(p: Prog, i: Ins, s: State)
    requires 0 <= s.pc < |p.text| && i.dst <= 10 && i.src <= 10 && i.op % 8 == 1
    ensures Execute(p, i, s) == LoadRegister(i, s)
  {
  }

  /** One turn on a load. */
  lemma LoadStep(p: Prog, s: State, i: Ins) returns (v: u64)
    requires Holds(p, s, i) && s.remaining >= 2 && IsLoad(i.op) && s.mem.Valid()
    ensures var (at, n, paid) := (Wrap64(s.regs[i.src] + i.off), Size(i.op), s.(remaining := s.remaining - 2));
      if Reaches(s.mem, at, n)
      then Step(p, s) == Next(paid.(pc := s.pc + 1, regs := s.regs[i.dst := v])) && Stands(s.mem, at, n, v)
      else Step(p, s) == Fail(InvalidAccess, paid)
  {
    var (at, n, paid) := (Wrap64(s.regs[i.src] + i.off), Size(i.op), s.(remaining := s.remaining - 2));
    Costs2(i.op);
    StepExecutes(p, s, i, paid);
    v := ExecutesLoadTo(p, i, paid, n, at);
  }

  lemma ExecutesLoadTo(p: Prog, i: Ins, s: State, n: nat, at: u64) returns (v: u64)
    requires 0 <= s.pc < |p.text| && i.dst <= 10 && i.src <= 10 && IsLoad(i.op) && n == Size(i.op) && s.mem.Valid()
    requires at == Wrap64(s.regs[i.src] + i.off)
    ensures if Reaches(s.mem, at, n)
      then Execute(p, i, s) == Next(s.(pc := s.pc + 1, regs := s.regs[i.dst := v])) && Stands(s.mem, at, n, v)
      else Execute(p, i, s) == Fail(InvalidAccess, s)
  {
    LoadClass(i.op);
    ExecutesLoad(p, i, s);
    v := LoadsSized(i, s, n, at);
  }

  lemma LoadsSized(i: Ins, s: State, n: nat, at: u64) returns (v: u64)
    requires i.dst <= 10 && i.src <= 10 && IsLoad(i.op) && n == Size(i.op) && s.mem.Valid()
    requires at == Wrap64(s.regs[i.src] + i.off)
    ensures if Reaches(s.mem, at, n)
      then LoadRegister(i, s) == Next(s.(pc := s.pc + 1, regs := s.regs[i.dst := v])) && Stands(s.mem, at, n, v)
      else LoadRegister(i, s) == Fail(InvalidAccess, s)
  {
    LoadWidths(i.op);
    AlignedIs(at, n);
    v := Loads(i, s, n, at);
  }

  lemma Loads(i: Ins, s: State, n: nat, at: u64) returns (v: u64)
    requires i.dst <= 10 && i.src <= 10 && n == AccessWidth(i.op, 1) != 0 && s.mem.Valid()
    requires at == Wrap64(s.regs[i.src] + i.off)
    ensures if Aligned(at, n) && AllMapped(s.mem, at, n)
      then LoadRegister(i, s) == Next(s.(pc := s.pc + 1, regs := s.regs[i.dst := v])) && Stands(s.mem, at, n, v)
      else LoadRegister(i, s) == Fail(InvalidAccess, s)
  {
    var bytes := VmFlat.LoadOutcome(i, s, n, at);
    v := Word(bytes);
    if LoadRegister(i, s).Next? { StandsAt(s.mem, at, bytes); }
  }

  lemma StandsAt(m: Mem, at: u64, bytes: seq<byte>)
    requires VmFlat.Spells(m, at, bytes) && |bytes| <= 8
    ensures Stands(m, at, |bytes|, Word(bytes))
  {
    ReadsBytes(bytes);
    forall k: nat | k < |bytes| ensures ByteAt(m, at + k) == Some(ByteOf(Word(bytes), k)) {
      assert ByteAt(m, at + k) == Some(bytes[at + k - at]);
    }
  }

  /** What a store writes: a register, or the sign-extended immediate. */
  function Written(i: Ins, src: u64): u64 {
    if i.op == 0x63 || i.op == 0x6b || i.op == 0x73 || i.op == 0x7b then src
    else if i.imm >= 0 then i.imm else i.imm + 0x1_0000_0000_0000_0000
  }

  lemma StoreWidths(op: byte)
    requires IsStore(op)
    ensures if op == 0x63 || op == 0x6b || op == 0x73 || op == 0x7b then AccessWidth(op, 3) == Size(op) && op % 8 == 3
            else AccessWidth(op, 3) == 0 && AccessWidth(op, 2) == Size(op) && op % 8 == 2
  {
  }

  lemma ExecutesStore(p: Prog, i: Ins, s: State)
    requires 0 <= s.pc < |p.text| && i.dst <= 10 && i.src <= 10 && IsStore(i.op)
    ensures Execute(p, i, s) == StoreValue(i, s, Size(i.op), Written(i, s.regs[i.src]))
  {
    StoreWidths(i.op);
    ExecutesStoreClass(p, i, s);
    StoresWritten(i, s);
  }

  lemma ExecutesStoreClass(p: Prog, i: Ins, s: State)
    requires 0 <= s.pc < |p.text| && i.dst <= 10 && i.src <= 10 && (i.op % 8 == 2 || i.op % 8 == 3)
    ensures Execute(p, i, s) == StoreRegister(i, s)
  {
  }

  lemma StoresWritten(i: Ins, s: State)
    requires i.dst <= 10 && i.src <= 10 && IsStore(i.op)
    ensures StoreRegister(i, s) == StoreValue(i, s, Size(i.op), Written(i, s.regs[i.src]))
  {
    StoreWidths(i.op);
    if AccessWidth(i.op, 3) != 0 { StoresOf(i, s, Size(i.op), s.regs[i.src]); }
    else { StoresImmediate(i, s, Size(i.op)); }
  }

  lemma StoresOf(i: Ins, s: State, n: nat, v: u64)
    requires i.dst <= 10 && i.src <= 10 && n == AccessWidth(i.op, 3) != 0 && v == s.regs[i.src]
    ensures StoreRegister(i, s) == StoreValue(i, s, n, v)
  {
  }

  lemma StoresImmediate(i: Ins, s: State, n: nat)
    requires i.dst <= 10 && i.src <= 10 && AccessWidth(i.op, 3) == 0 && n == AccessWidth(i.op, 2) != 0
    ensures StoreRegister(i, s) == StoreValue(i, s, n, Unsigned64(i.imm))
  {
  }

  /** The low n bytes of v are at the address, and the rest is as it was. */
  ghost predicate Puts(m: Mem, m': Mem, at: u64, n: nat, v: nat) {
    forall a: int :: ByteAt(m', a) == if at <= a < at + n then Some(ByteOf(v, a - at)) else ByteAt(m, a)
  }

  /** One turn on a store: stack and heap can be written. */
  lemma StoreStep(p: Prog, s: State, i: Ins) returns (m: Mem)
    requires Holds(p, s, i) && s.remaining >= 2 && IsStore(i.op) && s.mem.Valid()
    ensures var (at, n, paid) := (Wrap64(s.regs[i.dst] + i.off), Size(i.op), s.(remaining := s.remaining - 2));
      if Reaches(s.mem, at, n) && 0x2_0000_0000 <= at < 0x4_0000_0000
      then Step(p, s) == Next(paid.(pc := s.pc + 1, mem := m)) && Puts(s.mem, m, at, n, Written(i, s.regs[i.src]))
      else Step(p, s) == Fail(InvalidAccess, paid)
  {
    var (at, n, paid) := (Wrap64(s.regs[i.dst] + i.off), Size(i.op), s.(remaining := s.remaining - 2));
    Costs2(i.op);
    StepExecutes(p, s, i, paid);
    ExecutesStore(p, i, paid);
    m := Stores(i, paid, n, Written(i, s.regs[i.src]), at);
  }

  lemma Stores(i: Ins, s: State, n: nat, v: u64, at: u64) returns (m: Mem)
    requires i.dst <= 10 && Width(n) && s.mem.Valid() && at == Wrap64(s.regs[i.dst] + i.off)
    ensures if Reaches(s.mem, at, n) && 0x2_0000_0000 <= at < 0x4_0000_0000
      then StoreValue(i, s, n, v) == Next(s.(pc := s.pc + 1, mem := m)) && Puts(s.mem, m, at, n, v)
      else StoreValue(i, s, n, v) == Fail(InvalidAccess, s)
  {
    var r := StoreAligned(s.mem, at, LE(v, n));
    m := if r.Some? then r.value else s.mem;
    StoresBytes(s.mem, at, n, v, r);
    StoreOutcome(i, s, n, v, r);
  }

  lemma StoreOutcome(i: Ins, s: State, n: nat, v: u64, r: Option<Mem>)
    requires i.dst <= 10 && Width(n) && r == StoreAligned(s.mem, Wrap64(s.regs[i.dst] + i.off), LE(v, n))
    ensures StoreValue(i, s, n, v)
      == if r.Some? then Next(s.(pc := s.pc + 1, mem := r.value)) else Fail(InvalidAccess, s)
  {
  }

  lemma StoresBytes(m: Mem, at: u64, n: nat, v: u64, r: Option<Mem>)
    requires Width(n) && m.Valid() && r == StoreAligned(m, at, LE(v, n))
    ensures r.Some? <==> Reaches(m, at, n) && 0x2_0000_0000 <= at < 0x4_0000_0000
    ensures r.Some? ==> Puts(m, r.value, at, n, v)
  {
    AlignedIs(at, n);
    StoreIsFlat(m, at, LE(v, n));
    WritableIs(at);
    if r.Some? { PutsBytes(m, r.value, at, n, v); }
  }

  lemma WritableIs(at: u64)
    ensures Writable(at) <==> 0x2_0000_0000 <= at < 0x4_0000_0000
  {
  }

  lemma PutsBytes(m: Mem, m': Mem, at: u64, n: nat, v: u64)
    requires forall a: int :: ByteAt(m', a) == if at <= a < at + n then Some(LE(v, n)[a - at]) else ByteAt(m, a)
    ensures Puts(m, m', at, n, v)
  {
    forall a: int
      ensures ByteAt(m', a) == if at <= a < at + n then Some(ByteOf(v, a - at)) else ByteAt(m, a)
    {
      if at <= a < at + n { LEBytes(v, n, a - at); }
    }
  }

  // ----------------------------------------------------------------- system calls

  /** Where a bulk access of any size goes: program and input for reading only, inside
      their bounds; the heap likewise; the stack from a frame on, through to its end. */
  lemma TranslateExactly(m: Mem, k: nat, size: u64, write: bool)
    requires m.Valid() && k < 0x1_0000_0000
    ensures Translate(m, 0x1_0000_0000 + k, size, write)
      == if !write && k + size <= |m.ro| && Small(k, size) then Some(Slice(Program, k)) else None
    ensures var (frame, at) := (k / 8192, k % 8192);
      Translate(m, 0x2_0000_0000 + k, size, write)
      == if at < 4096 && 4096 * frame + at < 262144 && 4096 * frame + at + size <= 262144 && Small(k, size)
         then Some(Slice(Stack, 4096 * frame + at)) else None
    ensures Translate(m, 0x3_0000_0000 + k, size, write)
      == if k + size <= |m.heap| && Small(k, size) then Some(Slice(Heap, k)) else None
    ensures Translate(m, 0x4_0000_0000 + k, size, write)
      == if !write && k + size <= |m.input| && Small(k, size) then Some(Slice(Input, k)) else None
    ensures Translate(m, k, size, write) == None
  {
    InRegion(1, k);
    InRegion(2, k);
    InRegion(3, k);
    InRegion(4, k);
    InRegion(0, k);
  }

  /** The end of the access is a 64-bit number. */
  predicate Small(k: nat, size: u64) {
    size == 0 || k + size <= 0xFFFF_FFFF_FFFF_FFFF
  }

  /** What a system call is told: the bytes of an accepted read, the size of the heap, the
      units that are left, and whether a charge could be met. */
  lemma Answers(x: Inside, q: Request)
    ensures var (y, a) := Serve(x, q);
      && (q.Read? ==> y == x && var s := Translate(x.mem, q.addr, q.size, false);
            a == if s.None? then None else Some(x.mem.At(s.value.region)[s.value.start..s.value.start + q.size]))
      && (q.HeapSize? ==> y == x && a.Some? && |a.value| == 8)
      && (q.HeapSize? ==> UnLE(a.value) == |x.mem.heap| % 0x1_0000_0000_0000_0000)
      && (q.Remaining? ==> y == x && a.Some? && |a.value| == 8 && UnLE(a.value) == x.remaining)
      && (q.Charge? ==> if x.remaining < q.cost then a == None && y == x.(remaining := 0)
                        else a == Some([]) && y == x.(remaining := x.remaining - q.cost))
  {
    LE8(x.remaining);
    if q.HeapSize? { HeapNumber(|x.mem.heap|); }
  }

  lemma HeapNumber(n: nat)
    ensures UnLE(LE(n, 8)) == n % 0x1_0000_0000_0000_0000
  {
    LEModulo(n, 8);
    Pow256Values();
  }

  lemma {:induction false} LEModulo(v: nat, n: nat)
    ensures UnLE(LE(v, n)) == v % Pow256(n)
  {
    if n > 0 {
      LEModulo(v / 256, n - 1);
      assert LE(v, n)[1..] == LE(v / 256, n - 1);
      Split256(v, Pow256(n - 1));
    }
  }

  lemma Split256(v: nat, p: int)
    requires p >= 1
    ensures v % (256 * p) == v % 256 + 256 * (v / 256 % p)
  {
    var (w, r) := (v / 256, v % 256);
    var (q, t) := (w / p, w % p);
    assert w == q * p + t;
    assert v == 256 * w + r;
    assert v == q * (256 * p) + (256 * t + r);
    RemainderIs(v, 256 * p, q, 256 * t + r);
  }

  lemma RemainderIs(v: nat, n: int, q: int, r: int)
    requires n > 0 && v == q * n + r && 0 <= r < n
    ensures v % n == r
  {
    var d := v / n - q;
    assert d * n == r - v % n;
    if d >= 1 { MulMono(1, d, n); }
    if d <= -1 { MulMono(d, -1, n); }
  }
}
