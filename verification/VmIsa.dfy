/** The sBPF instruction set: fields, costs, arithmetic and comparisons
    (pkg/svm/sbpf/opcode.go and the pure parts of pkg/svm/sbpf/vm.go). */
module VmIsa {
  import opened Bytes

  type i16 = n: int | -0x8000 <= n < 0x8000
  type i32 = n: int | -0x8000_0000 <= n < 0x8000_0000
  type i64 = n: int | -0x8000_0000_0000_0000 <= n < 0x8000_0000_0000_0000

  // ------------------------------------------------------- signed and unsigned

  function Signed64(x: u64): i64 {
    if x < 0x8000_0000_0000_0000 then x else x - 0x1_0000_0000_0000_0000
  }

  function Unsigned64(x: i64): u64 {
    if x >= 0 then x else x + 0x1_0000_0000_0000_0000
  }

  function Signed32(x: u32): i32 {
    if x < 0x8000_0000 then x else x - 0x1_0000_0000
  }

  function Unsigned32(x: i32): u32 {
    if x >= 0 then x else x + 0x1_0000_0000
  }

  function Wrap64(x: int): u64 { x % 0x1_0000_0000_0000_0000 }
  function Wrap32(x: int): u32 { x % 0x1_0000_0000 }

  function Pow2(k: nat): (p: nat)
    ensures p >= 1
  {
    if k == 0 then 1 else 2 * Pow2(k - 1)
  }

  lemma {:induction false} Pow2Add(a: nat, b: nat)
    ensures Pow2(a + b) == Pow2(a) * Pow2(b)
    decreases a
  {
    if a > 0 {
      Pow2Add(a - 1, b);
      assert 2 * (Pow2(a - 1) * Pow2(b)) == 2 * Pow2(a - 1) * Pow2(b);
    }
  }

  lemma Pow2Square(a: nat, p: nat)
    requires Pow2(a) == p
    ensures Pow2(2 * a) == p * p
  {
    Pow2Add(a, a);
  }

  lemma Pow2Values()
    ensures Pow2(32) == 0x1_0000_0000 && Pow2(64) == 0x1_0000_0000_0000_0000
  {
    assert Pow2(2) == 2 * (2 * Pow2(0));
    Pow2Square(2, 4);
    Pow2Square(4, 16);
    Pow2Square(8, 0x100);
    Pow2Square(16, 0x1_0000);
    Pow2Square(32, 0x1_0000_0000);
  }

  // -------------------------------------------------------------------- fields

  datatype Ins = Ins(op: byte, dst: nat, src: nat, off: i16, imm: i32)

  function Decode(word: u64): (i: Ins)
    ensures i.dst < 16 && i.src < 16
  {
    var off := word / 0x1_0000 % 0x1_0000;
    Ins(word % 0x100, word / 0x100 % 0x10, word / 0x1000 % 0x10,
        if off < 0x8000 then off else off - 0x1_0000, Signed32(word / 0x1_0000_0000))
  }

  function Encode(i: Ins): u64
    requires i.dst < 16 && i.src < 16
  {
    i.op + 0x100 * i.dst + 0x1000 * i.src
      + 0x1_0000 * (if i.off >= 0 then i.off else i.off + 0x1_0000) + 0x1_0000_0000 * Unsigned32(i.imm)
  }

  lemma DigitDst(w: nat, low: nat, dst: nat, high: nat)
    requires w == low + 0x100 * dst + 0x1000 * high && low < 0x100 && dst < 0x10
    ensures w % 0x100 == low && w / 0x100 % 0x10 == dst
  {
    assert w == low + 0x100 * (dst + 0x10 * high);
  }

  lemma DigitSrc(w: nat, low: nat, src: nat, high: nat)
    requires w == low + 0x1000 * src + 0x1_0000 * high && low < 0x1000 && src < 0x10
    ensures w / 0x1000 % 0x10 == src
  {
    assert w == low + 0x1000 * (src + 0x10 * high);
  }

  lemma DigitOff(w: nat, low: nat, off: nat, high: nat)
    requires w == low + 0x1_0000 * off + 0x1_0000_0000 * high && low < 0x1_0000 && off < 0x1_0000
    ensures w / 0x1_0000 % 0x1_0000 == off
  {
    assert w == low + 0x1_0000 * (off + 0x1_0000 * high);
  }

  lemma DigitImm(w: nat, low: nat, imm: nat)
    requires w == low + 0x1_0000_0000 * imm && low < 0x1_0000_0000
    ensures w / 0x1_0000_0000 == imm
  {
  }

  lemma Digits(op: nat, dst: nat, src: nat, off: nat, imm: nat)
    requires op < 0x100 && dst < 0x10 && src < 0x10 && off < 0x1_0000
    ensures var w := op + 0x100 * dst + 0x1000 * src + 0x1_0000 * off + 0x1_0000_0000 * imm;
            && w % 0x100 == op && w / 0x100 % 0x10 == dst && w / 0x1000 % 0x10 == src
            && w / 0x1_0000 % 0x1_0000 == off && w / 0x1_0000_0000 == imm
  {
    var w := op + 0x100 * dst + 0x1000 * src + 0x1_0000 * off + 0x1_0000_0000 * imm;
    DigitDst(w, op, dst, src + 0x10 * off + 0x10_0000 * imm);
    DigitSrc(w, op + 0x100 * dst, src, off + 0x1_0000 * imm);
    DigitOff(w, op + 0x100 * dst + 0x1000 * src, off, imm);
    DigitImm(w, op + 0x100 * dst + 0x1000 * src + 0x1_0000 * off, imm);
  }

  lemma DecodeEncode(i: Ins)
    requires i.dst < 16 && i.src < 16
    ensures Decode(Encode(i)) == i
  {
    Digits(i.op, i.dst, i.src, if i.off >= 0 then i.off else i.off + 0x1_0000, Unsigned32(i.imm));
  }

  // --------------------------------------------------------------------- costs

  function Cost(op: byte): (c: u64)
    ensures 1 <= c <= 12
  {
    var class_, high := op % 8, op / 16;
    if class_ == 4 || class_ == 7 then
      if high == 2 then 4 else if high == 3 || high == 9 then 12 else 1
    else if class_ == 0 || class_ == 1 then 2
    else if class_ == 2 || class_ == 3 then 2
    else if high == 8 then 5
    else 1
  }

  // ---------------------------------------------------------------- arithmetic

  datatype AluResult = Illegal | DivisionByZero | Value(v: u64)

  datatype BitOp = Or | And | Xor

  function Bit(f: BitOp, a: nat, b: nat): nat {
    match f
    case Or => if a % 2 == 1 || b % 2 == 1 then 1 else 0
    case And => if a % 2 == 1 && b % 2 == 1 then 1 else 0
    case Xor => if a % 2 != b % 2 then 1 else 0
  }

  /** The bitwise operation on the n low bits. */
  function Bits(f: BitOp, a: nat, b: nat, n: nat): (r: nat)
    ensures r < Pow2(n)
    decreases a, b, n
  {
    if n == 0 then 0 else Bit(f, a, b) + 2 * Bits(f, a / 2, b / 2, n - 1)
  }

  function Bits64(f: BitOp, a: u64, b: u64): u64 {
    Pow2Values();
    Bits(f, a, b, 64)
  }

  function Bits32(f: BitOp, a: u32, b: u32): u32 {
    Pow2Values();
    Bits(f, a, b, 32)
  }

  /** The three operations fix each other: or and and have the sum of the operands,
      and exclusive or is their difference. */
  lemma {:induction false} BitSums(a: nat, b: nat, n: nat)
    requires a < Pow2(n) && b < Pow2(n)
    ensures Bits(Or, a, b, n) + Bits(And, a, b, n) == a + b
    ensures Bits(Xor, a, b, n) == Bits(Or, a, b, n) - Bits(And, a, b, n)
    decreases n
  {
    if n > 0 { BitSums(a / 2, b / 2, n - 1); }
  }

  /** High nibbles: add sub mul div or and lsh rsh neg mod xor mov arsh. */
  function Alu64(o: nat, d: u64, s: u64): u64
    requires o <= 12 && (o == 3 || o == 9 ==> s != 0)
  {
    if o == 0 then Wrap64(d + s)
    else if o == 1 then Wrap64(d - s)
    else if o == 2 then Wrap64(d * s)
    else if o == 3 then Quotient(d, s)
    else if o == 4 then Bits64(Or, d, s)
    else if o == 5 then Bits64(And, d, s)
    else if o == 6 then Wrap64(d * Pow2(s % 64))
    else if o == 7 then Quotient(d, Pow2(s % 64))
    else if o == 8 then Wrap64(0 - d)
    else if o == 9 then Remainder(d, s)
    else if o == 10 then Bits64(Xor, d, s)
    else if o == 11 then s
    else Unsigned64(ShiftDown(Signed64(d), s % 64))
  }

  function Alu32(o: nat, d: u32, s: u32): u32
    requires o <= 12 && (o == 3 || o == 9 ==> s != 0)
  {
    if o == 0 then Wrap32(d + s)
    else if o == 1 then Wrap32(d - s)
    else if o == 2 then Wrap32(d * s)
    else if o == 3 then Quotient(d, s)
    else if o == 4 then Bits32(Or, d, s)
    else if o == 5 then Bits32(And, d, s)
    else if o == 6 then Wrap32(d * Pow2(s % 32))
    else if o == 7 then Quotient(d, Pow2(s % 32))
    else if o == 8 then Wrap32(0 - d)
    else if o == 9 then Remainder(d, s)
    else if o == 10 then Bits32(Xor, d, s)
    else if o == 11 then s
    else Unsigned32(ShiftDown(Signed32(d), s % 32))
  }

  lemma DivisionBounds(d: nat, s: nat)
    requires s > 0
    ensures 0 <= d / s <= d && d == d / s * s + d % s && 0 <= d % s < s && d % s <= d
  {
    var q, r := d / s, d % s;
    assert d == q * s + r && 0 <= r < s;
    if q < 0 {
      MulMono(q, -1, s);
    } else {
      MulMono(1, s, q);
    }
  }

  function Quotient(d: nat, s: nat): (q: nat)
    requires s > 0
    ensures q <= d
  {
    DivisionBounds(d, s);
    d / s
  }

  function Remainder(d: nat, s: nat): (r: nat)
    requires s > 0
    ensures r <= d && r < s
  {
    DivisionBounds(d, s);
    d % s
  }

  /** The arithmetic shift: the quotient by 2^k, rounded down. */
  function ShiftDown(x: int, k: nat): (y: int)
    ensures (x >= 0 ==> 0 <= y <= x) && (x < 0 ==> x <= y < 0)
    decreases k
  {
    if k == 0 then x else ShiftDown(x / 2, k - 1)
  }

  /** One ALU instruction on the destination's value, the source's value and the
      immediate. Immediates are sign-extended, except as 64-bit divisors. */
  function Alu(op: byte, d: u64, src: u64, imm: i32): AluResult
    requires op % 8 == 4 || op % 8 == 7
  {
    var o, reg := op / 16, op / 8 % 2 == 1;
    var divides := o == 3 || o == 9;
    if o > 12 || (o == 8 && reg) then Illegal
    else if op % 8 == 7 then
      var s: u64 := if reg then src else if divides then Unsigned32(imm) else Unsigned64(imm);
      if divides && s == 0 then DivisionByZero else Value(Alu64(o, d, s))
    else
      var s: u32 := if reg then Wrap32(src) else Unsigned32(imm);
      if divides && s == 0 then DivisionByZero else Value(Alu32(o, Wrap32(d), s))
  }

  lemma WrapOnce(x: int)
    requires -0x1_0000_0000_0000_0000 <= x < 0x2_0000_0000_0000_0000
    ensures Wrap64(x) == if x < 0 then x + 0x1_0000_0000_0000_0000
                         else if x < 0x1_0000_0000_0000_0000 then x else x - 0x1_0000_0000_0000_0000
  {
  }

  lemma WrapInverse(d: u64, s: u64)
    ensures Wrap64(Wrap64(d + s) - s) == d && Wrap64(Wrap64(d - s) + s) == d && Wrap64(d + Wrap64(0 - d)) == 0
  {
    WrapOnce(d + s);
    WrapOnce(Wrap64(d + s) - s);
    WrapOnce(d - s);
    WrapOnce(Wrap64(d - s) + s);
    WrapOnce(0 - d);
    WrapOnce(d + Wrap64(0 - d));
  }

  /** Addition and subtraction undo each other, and a value and its negation add
      up to zero. */
  lemma AddSubInverse(d: u64, s: u64)
    ensures Alu64(1, Alu64(0, d, s), s) == d && Alu64(0, Alu64(1, d, s), s) == d
    ensures Alu64(0, d, Alu64(8, d, 0)) == 0
  {
    WrapInverse(d, s);
  }

  lemma QuotientAndRemainder(d: u64, s: u64)
    requires s != 0
    ensures Alu64(3, d, s) * s + Alu64(9, d, s) == d && Alu64(9, d, s) < s
  {
    DivisionBounds(d, s);
  }

  lemma DoubleBounds(x: int, y: int, p: nat)
    requires y * p <= x / 2 < (y + 1) * p
    ensures y * (2 * p) <= x < (y + 1) * (2 * p)
  {
    var a, b := y * p, (y + 1) * p;
    assert y * (2 * p) == 2 * a && (y + 1) * (2 * p) == 2 * b;
  }

  lemma {:induction false} ShiftDownFloors(x: int, k: nat)
    ensures ShiftDown(x, k) * Pow2(k) <= x < (ShiftDown(x, k) + 1) * Pow2(k)
    decreases k
  {
    if k > 0 {
      ShiftDownFloors(x / 2, k - 1);
      DoubleBounds(x, ShiftDown(x / 2, k - 1), Pow2(k - 1));
    }
  }

  /** What the two right shifts mean: division by 2^k rounded down, of the unsigned
      and of the signed value. */
  lemma Shifts(d: u64, s: u64)
    ensures var p := Pow2(s % 64);
            && Alu64(7, d, s) * p <= d < (Alu64(7, d, s) + 1) * p
            && Signed64(Alu64(12, d, s)) * p <= Signed64(d) < (Signed64(Alu64(12, d, s)) + 1) * p
  {
    var p := Pow2(s % 64);
    DivisionBounds(d, p);
    var q := Quotient(d, p);
    assert (q + 1) * p == q * p + p;
    ShiftDownFloors(Signed64(d), s % 64);
    assert Signed64(Unsigned64(ShiftDown(Signed64(d), s % 64))) == ShiftDown(Signed64(d), s % 64);
  }

  // --------------------------------------------------------------------- jumps

  /** Whether a jump of class 5 or 6 is taken; None if there is no such opcode.
      Call and exit are not jumps in this sense. */
  function Taken(op: byte, d: u64, src: u64, imm: i32): Option<bool>
    requires op % 8 == 5 || op % 8 == 6
  {
    var j, reg := op / 16, op / 8 % 2 == 1;
    if op == 0x05 then Some(true)
    else if op % 8 == 5 then
      var s: u64 := if reg then src else Unsigned64(imm);
      Compare(j, d, s, Signed64(d), Signed64(s), Bits64(And, d, s) != 0)
    else
      var a, b := Wrap32(d), if reg then Wrap32(src) else Unsigned32(imm);
      Compare(j, a, b, Signed32(a), Signed32(b), Bits32(And, a, b) != 0)
  }

  function Compare(j: nat, a: int, b: int, sa: int, sb: int, anySet: bool): Option<bool> {
    if j == 1 then Some(a == b)
    else if j == 2 then Some(a > b)
    else if j == 3 then Some(a >= b)
    else if j == 4 then Some(anySet)
    else if j == 5 then Some(a != b)
    else if j == 6 then Some(sa > sb)
    else if j == 7 then Some(sa >= sb)
    else if j == 10 then Some(a < b)
    else if j == 11 then Some(a <= b)
    else if j == 12 then Some(sa < sb)
    else if j == 13 then Some(sa <= sb)
    else None
  }

  /** The opcode that tests the opposite: eq/ne, gt/le, ge/lt and the signed ones. */
  function Opposite(j: nat): nat {
    if j == 1 then 5 else if j == 5 then 1
    else if j == 2 then 11 else if j == 11 then 2
    else if j == 3 then 10 else if j == 10 then 3
    else if j == 6 then 13 else if j == 13 then 6
    else if j == 7 then 12 else if j == 12 then 7
    else j
  }

  lemma OppositeCompare(j: nat, a: int, b: int, sa: int, sb: int, anySet: bool)
    requires Opposite(j) != j
    ensures var t, f := Compare(j, a, b, sa, sb, anySet), Compare(Opposite(j), a, b, sa, sb, anySet);
            t.Some? && f.Some? && t.value == !f.value
  {
  }
}
