/** The sBPF interpreter (pkg/svm/sbpf/vm.go): one step as a function of the whole
    machine state. */
module Vm {
  import opened Bytes
  import opened VmMemory
  import opened VmIsa

  const STACK_DEPTH: int := 64
  const LDDW: byte := 0x18
  const CALL: byte := 0x85
  const EXIT: byte := 0x95

  type Regs = r: seq<u64> | |r| == 11 witness [0, 0, 0, 0, 0, 0, 0, 0, 0, 0, 0]
  type Saved = r: seq<u64> | |r| == 4 witness [0, 0, 0, 0]

  /** What a call saves: R10, R6 to R9 and where to go on. */
  datatype Frame = Frame(ptr: u64, saved: Saved, ret: int)

  datatype State = State(pc: int, regs: Regs, frames: seq<Frame>, mem: Mem, host: Host, remaining: u64)

  datatype Error =
    | PcOutOfBounds | ComputeExceeded | InvalidInstruction | InvalidAccess
    | DivideByZero | CallDepthExceeded | UnknownCall | SyscallFailed

  datatype Outcome = Next(s: State) | Halt(s: State) | Fail(e: Error, s: State)

  datatype Prog = Prog(text: seq<u64>, functions: map<u32, u64>, syscalls: u32 -> Option<Syscall>)

  // ------------------------------------------------------------- system calls

  /** Whatever the host keeps between system calls, written out as bytes. */
  type Host = seq<byte>

  /** A host function, as any strategy over the interface that the machine gives it:
      what it asks for next, and what it keeps, given what it has kept, its arguments
      and the answers so far. It must end within its own limit of requests. */
  datatype Syscall = Syscall(limit: nat, next: (Host, seq<u64>, seq<Option<seq<byte>>>) -> (Request, Host))

  datatype Request =
    | Read(addr: u64, size: u64)
    | Write(addr: u64, bytes: seq<byte>)
    | ReadWord(addr: u64, width: nat)
    | WriteWord(addr: u64, bytes: seq<byte>)
    | HeapSize
    | GrowHeap(size: u64)
    | Charge(cost: u64)
    | Remaining
    | Return(r0: u64)
    | Abort

  /** What a system call can reach. */
  datatype Inside = Inside(mem: Mem, host: Host, remaining: u64)

  function Grown(m: Mem, size: u64): Mem {
    if |m.heap| < size <= HEAP_MAX then m.(heap := m.heap + ZeroBytes(size - |m.heap|)) else m
  }

  /** The answer to a request, None for an error, and the state after it. A charge that
      cannot be met takes all there is. */
  function Serve(x: Inside, q: Request): (Inside, Option<seq<byte>>) {
    match q
    case Read(addr, size) => (x, Load(x.mem, addr, size))
    case ReadWord(addr, n) => (x, if Width(n) then LoadAligned(x.mem, addr, n) else None)
    case Write(addr, bytes) => Stored(x, if |bytes| < U64_SIZE then Store(x.mem, addr, bytes) else None)
    case WriteWord(addr, bytes) => Stored(x, if Width(|bytes|) then StoreAligned(x.mem, addr, bytes) else None)
    case HeapSize => (x, Some(LE(|x.mem.heap|, 8)))
    case GrowHeap(size) => (x.(mem := Grown(x.mem, size)), Some([]))
    case Charge(cost) =>
      if x.remaining < cost then (x.(remaining := 0), None) else (x.(remaining := x.remaining - cost), Some([]))
    case Remaining => (x, Some(LE(x.remaining, 8)))
    case _ => (x, None)
  }

  function Stored(x: Inside, r: Option<Mem>): (Inside, Option<seq<byte>>) {
    if r.Some? then (x.(mem := r.value), Some([])) else (x, None)
  }

  function Invoke(sys: Syscall, args: seq<u64>, x: Inside, answers: seq<Option<seq<byte>>>, left: nat):
      (Inside, Option<u64>)
    decreases left
  {
    if left == 0 then (x, None) else
    var (q, host) := sys.next(x.host, args, answers);
    var y := x.(host := host);
    match q
    case Return(r0) => (y, Some(r0))
    case Abort => (y, None)
    case _ => var (z, a) := Serve(y, q); Invoke(sys, args, z, answers + [a], left - 1)
  }

  /** What the charges of a system call take from the meter. */
  function Charges(sys: Syscall, args: seq<u64>, x: Inside, answers: seq<Option<seq<byte>>>, left: nat): nat
    decreases left
  {
    if left == 0 then 0 else
    var (q, host) := sys.next(x.host, args, answers);
    if q.Return? || q.Abort? then 0 else
    var (z, a) := Serve(x.(host := host), q);
    (if q.Charge? then Min(q.cost, x.remaining) else 0) + Charges(sys, args, z, answers + [a], left - 1)
  }

  lemma {:induction false} InvokeCharges(sys: Syscall, args: seq<u64>, x: Inside, answers: seq<Option<seq<byte>>>,
      left: nat)
    ensures Invoke(sys, args, x, answers, left).0.remaining == x.remaining - Charges(sys, args, x, answers, left)
    decreases left
  {
    if left > 0 {
      var (q, host) := sys.next(x.host, args, answers);
      if !q.Return? && !q.Abort? {
        var (z, a) := Serve(x.(host := host), q);
        InvokeCharges(sys, args, z, answers + [a], left - 1);
      }
    }
  }

  // ---------------------------------------------------------------- one step

  /** One frame and one gap up, modulo 2^64. */
  function NextFrame(ptr: int): u64 {
    Wrap64(ptr + 8192)
  }

  function Push(s: State, target: int): Outcome {
    if |s.frames| >= STACK_DEPTH then Fail(CallDepthExceeded, s) else
    Next(s.(pc := target,
            frames := s.frames + [Frame(s.regs[10], s.regs[6..10], s.pc + 1)],
            regs := s.regs[10 := NextFrame(s.regs[10])]))
  }

  function Restored(r: Regs, f: Frame): Regs {
    r[..6] + f.saved + [f.ptr]
  }

  function Exit(s: State): Outcome {
    if s.frames == [] then Halt(s) else
    var f := s.frames[|s.frames| - 1];
    Next(s.(pc := f.ret, frames := s.frames[..|s.frames| - 1], regs := Restored(s.regs, f)))
  }

  function Call(p: Prog, i: Ins, s: State): Outcome {
    var hash := Unsigned32(i.imm);
    var sys := p.syscalls(hash);
    if sys.Some? then
      var (x, r) := Invoke(sys.value, s.regs[1..6], Inside(s.mem, s.host, s.remaining), [], sys.value.limit);
      var t := s.(mem := x.mem, host := x.host, remaining := x.remaining);
      if r.None? then Fail(SyscallFailed, t)
      else Next(t.(pc := s.pc + 1, regs := s.regs[0 := r.value]))
    else if hash in p.functions then Push(s, Signed64(p.functions[hash]))
    else if i.src == 1 then Push(s, s.pc + i.imm + 1)
    else Fail(UnknownCall, s)
  }

  /** The width of a load or store opcode, by its low class bits and size bits. */
  function AccessWidth(op: byte, class_: nat): (n: nat)
    ensures n == 0 || Width(n)
  {
    if op == 0x70 + class_ then 1
    else if op == 0x68 + class_ then 2
    else if op == 0x60 + class_ then 4
    else if op == 0x78 + class_ then 8
    else 0
  }

  function Advance(s: State): Outcome {
    Next(s.(pc := s.pc + 1))
  }

  function LoadWide(p: Prog, i: Ins, s: State): Outcome
    requires 0 <= s.pc < |p.text| && i.dst <= 10
  {
    if s.pc + 1 >= |p.text| || i.dst == 10 then Fail(InvalidInstruction, s) else
    var high: u32 := p.text[s.pc + 1] / 0x1_0000_0000;
    Next(s.(pc := s.pc + 2, regs := s.regs[i.dst := Unsigned32(i.imm) + 0x1_0000_0000 * high]))
  }

  function Arithmetic(i: Ins, s: State): Outcome
    requires i.dst <= 10 && i.src <= 10 && (i.op % 8 == 4 || i.op % 8 == 7)
  {
    match Alu(i.op, s.regs[i.dst], s.regs[i.src], i.imm)
    case Illegal => Fail(InvalidInstruction, s)
    case DivisionByZero => Fail(DivideByZero, s)
    case Value(v) => Advance(s.(regs := s.regs[i.dst := v]))
  }

  function LoadRegister(i: Ins, s: State): Outcome
    requires i.dst <= 10 && i.src <= 10
  {
    var n := AccessWidth(i.op, 1);
    if n == 0 then Fail(InvalidInstruction, s) else
    Receive(i, s, LoadAligned(s.mem, Wrap64(s.regs[i.src] + i.off), n))
  }

  /** The register takes what was loaded, if anything. */
  function Receive(i: Ins, s: State, loaded: Option<seq<byte>>): Outcome
    requires i.dst <= 10
  {
    match loaded
    case None => Fail(InvalidAccess, s)
    case Some(bytes) => Advance(s.(regs := s.regs[i.dst := Word(bytes)]))
  }

  /** The value of at most eight bytes. */
  function Word(bytes: seq<byte>): u64 {
    if |bytes| > 8 then 0 else
    WordFits(bytes);
    UnLE(bytes)
  }

  lemma WordFits(bytes: seq<byte>)
    requires |bytes| <= 8
    ensures UnLE(bytes) < U64_SIZE
  {
    UnLEBound(bytes);
    Pow256Values();
    Pow256Grows(|bytes|, 8);
  }

  lemma {:induction false} Pow256Grows(a: nat, b: nat)
    requires a <= b
    ensures Pow256(a) <= Pow256(b)
    decreases b
  {
    if a < b { Pow256Grows(a, b - 1); }
  }

  function StoreValue(i: Ins, s: State, n: nat, v: u64): Outcome
    requires i.dst <= 10 && Width(n)
  {
    match StoreAligned(s.mem, Wrap64(s.regs[i.dst] + i.off), LE(v, n))
    case None => Fail(InvalidAccess, s)
    case Some(m) => Advance(s.(mem := m))
  }

  function StoreRegister(i: Ins, s: State): Outcome
    requires i.dst <= 10 && i.src <= 10
  {
    var n, k := AccessWidth(i.op, 3), AccessWidth(i.op, 2);
    if n != 0 then StoreValue(i, s, n, s.regs[i.src])
    else if k != 0 then StoreValue(i, s, k, Unsigned64(i.imm))
    else Fail(InvalidInstruction, s)
  }

  function Jump(i: Ins, s: State): Outcome
    requires i.dst <= 10 && i.src <= 10 && (i.op % 8 == 5 || i.op % 8 == 6)
  {
    match Taken(i.op, s.regs[i.dst], s.regs[i.src], i.imm)
    case None => Fail(InvalidInstruction, s)
    case Some(taken) => if taken then Next(s.(pc := s.pc + i.off + 1)) else Advance(s)
  }

  function Execute(p: Prog, i: Ins, s: State): Outcome
    requires 0 <= s.pc < |p.text| && i.dst <= 10 && i.src <= 10
  {
    var class_ := i.op % 8;
    if i.op == LDDW then LoadWide(p, i, s)
    else if class_ == 4 || class_ == 7 then Arithmetic(i, s)
    else if class_ == 1 then LoadRegister(i, s)
    else if class_ == 2 || class_ == 3 then StoreRegister(i, s)
    else if i.op == CALL then Call(p, i, s)
    else if i.op == EXIT then Exit(s)
    else if class_ == 5 || class_ == 6 then Jump(i, s)
    else Fail(InvalidInstruction, s)
  }

  /** One turn of the loop: fetch, pay, check the register fields, execute. */
  function Step(p: Prog, s: State): Outcome {
    if s.pc < 0 || s.pc >= |p.text| then Fail(PcOutOfBounds, s) else
    var i := Decode(p.text[s.pc]);
    if s.remaining < Cost(i.op) then Fail(ComputeExceeded, s.(remaining := 0)) else
    var paid := s.(remaining := s.remaining - Cost(i.op));
    if i.dst > 10 || i.src > 10 then Fail(InvalidInstruction, paid) else Execute(p, i, paid)
  }

  /** What an instruction lets the host charge: nothing, unless it is a system call. */
  function HostCharge(p: Prog, i: Ins, s: State): nat {
    if i.op != CALL then 0 else
    var sys := p.syscalls(Unsigned32(i.imm));
    if sys.None? then 0
    else Charges(sys.value, s.regs[1..6], Inside(s.mem, s.host, s.remaining), [], sys.value.limit)
  }

  lemma ExecuteCharges(p: Prog, i: Ins, s: State)
    requires 0 <= s.pc < |p.text| && i.dst <= 10 && i.src <= 10
    ensures Execute(p, i, s).s.remaining == s.remaining - HostCharge(p, i, s)
  {
    if i.op == CALL {
      var sys := p.syscalls(Unsigned32(i.imm));
      if sys.Some? {
        InvokeCharges(sys.value, s.regs[1..6], Inside(s.mem, s.host, s.remaining), [], sys.value.limit);
      }
    }
  }

  /** Every instruction executed costs at least one unit, so a run is finite. */
  function Run(p: Prog, s: State): (o: Outcome)
    ensures !o.Next?
    decreases s.remaining
  {
    var o := Step(p, s);
    if o.Next? then
      StepPays(p, s);
      Run(p, o.s)
    else o
  }

  lemma StepPays(p: Prog, s: State)
    requires Step(p, s).Next?
    ensures var i := Decode(p.text[s.pc]);
      && s.remaining >= Cost(i.op) >= 1
      && Step(p, s).s.remaining
        == s.remaining - Cost(i.op) - HostCharge(p, i, s.(remaining := s.remaining - Cost(i.op)))
  {
    var i := Decode(p.text[s.pc]);
    ExecuteCharges(p, i, s.(remaining := s.remaining - Cost(i.op)));
  }

  /** R1 points at the input, R10 at the last byte of the first frame. */
  const START_REGS: Regs := [0, 0x4_0000_0000, 0, 0, 0, 0, 0, 0, 0, 0, 0x2_0000_0FFF]
}
