/** The four regions of the machine as one flat memory, over whole runs: at every
    address stands the last byte that a store or a system call put there. */
module VmFlat {
  import opened Bytes
  import opened VmMemory
  import opened VmIsa
  import opened Vm
  import opened VmRuns

  // --------------------------------------------------------------------- effects

  /** What memory can undergo: bytes are written from an address on, or the heap is
      extended by zeros. */
  datatype Effect = Put(at: u64, bytes: seq<byte>) | Extend(from: nat, to: nat)

  /** How far an address is from the start of a write, in the memory that is written: on
      the stack, the gaps between frames do not count, and nothing is in them. */
  function Distance(at: u64, a: int): Option<int> {
    if Hi(a) != Hi(at) then None
    else if Hi(at) != 2 then Some(a - at)
    else if Cell(Lo(at)).Some? && Cell(Lo(a)).Some? then Some(Cell(Lo(a)).value - Cell(Lo(at)).value)
    else None
  }

  /** The byte at an address after an effect. */
  function Affected(before: Option<byte>, e: Effect, a: int): Option<byte> {
    match e
    case Put(at, bytes) =>
      var d := Distance(at, a);
      if d.Some? && 0 <= d.value < |bytes| then Some(bytes[d.value]) else before
    case Extend(from, to) => if Hi(a) == 3 && from <= Lo(a) < to then Some(0) else before
  }

  /** The byte at an address after one effect and then the next: that of the last effect
      that reaches it. */
  function Latest(before: Option<byte>, es: seq<Effect>, a: int): Option<byte>
    decreases |es|
  {
    if es == [] then before else Affected(Latest(before, es[..|es| - 1], a), es[|es| - 1], a)
  }

  lemma {:induction false} LatestSplit(before: Option<byte>, es: seq<Effect>, more: seq<Effect>, a: int)
    ensures Latest(before, es + more, a) == Latest(Latest(before, es, a), more, a)
    decreases |more|
  {
    if more == [] {
      assert es + more == es;
    } else {
      assert (es + more)[..|es + more| - 1] == es + more[..|more| - 1];
      LatestSplit(before, es, more[..|more| - 1], a);
    }
  }

  lemma LatestOne(before: Option<byte>, e: Effect, a: int)
    ensures Latest(before, [e], a) == Affected(before, e, a)
  {
    assert [e][..0] == [];
    assert Latest(before, [], a) == before;
  }

  /** A write that ends inside the frame it starts in, or is not on the stack. */
  predicate Inside4K(at: u64, n: nat) {
    Hi(at) == 2 ==> Lo(at) % 8192 + n <= 4096
  }

  /** An accepted write puts its bytes at exactly the addresses it names, unless it
      crosses the end of a frame. */
  lemma PlainPut(m: Mem, at: u64, bytes: seq<byte>, before: Option<byte>, a: int)
    requires m.Valid() && |bytes| < U64_SIZE && Store(m, at, bytes).Some? && Inside4K(at, |bytes|)
    ensures Affected(before, Put(at, bytes), a)
         == if at <= a < at + |bytes| then Some(bytes[a - at]) else before
  {
    if Hi(at) == 2 {
      StackPut(at, |bytes|, a);
    } else if Hi(a) != Hi(at) {
      assert !(at <= a < at + |bytes|);
    }
  }

  /** Inside a frame, distance is distance between addresses. */
  lemma StackPut(at: u64, n: nat, a: int)
    requires Hi(at) == 2 && Cell(Lo(at)).Some? && Inside4K(at, n)
    ensures var d := Distance(at, a);
      (at <= a < at + n <==> d.Some? && 0 <= d.value < n) && (at <= a < at + n ==> d.value == a - at)
  {
    if at <= a < at + n {
      BulkAddress(at, a - at);
      BulkCell(Lo(at), a - at);
    }
    var d := Distance(at, a);
    if d.Some? && 0 <= d.value < n { CellAhead(Lo(at), Lo(a), d.value); }
  }

  lemma CellAhead(lo: nat, lo': nat, d: nat)
    requires Cell(lo).Some? && Cell(lo') == Some(Cell(lo).value + d) && d < 4096 - lo % 8192
    ensures lo' == lo + d
  {
    BulkCell(lo, d);
    CellInjective(lo', lo + d);
  }

  /** Aligned writes do not cross. */
  lemma AlignedInside(m: Mem, at: u64, n: nat)
    requires Width(n) && Aligned(at, n) && Translate(m, at, n, true).Some?
    ensures Inside4K(at, n)
  {
    Block(at, n, 0);
    if Hi(at) == 2 {
      var (lo, q, r) := (Lo(at), Lo(at) / 8192, Lo(at) % 8192);
      AlignedShift(q * 1024, r, n);
      NoCarry(r, 512, n, n - 1);
    }
  }

  /** Where an accepted write goes, crossing or not. */
  lemma StoreEffect(m: Mem, at: u64, bytes: seq<byte>, a: int)
    requires |bytes| < U64_SIZE && Store(m, at, bytes).Some?
    ensures ByteAt(Store(m, at, bytes).value, a) == Affected(ByteAt(m, a), Put(at, bytes), a)
  {
    var s := Translate(m, at, |bytes|, true).value;
    var m' := StoreAt(m, s, bytes);
    if Hi(at) == 2 { StackEffect(m, m', Lo(at), bytes, Hi(a), Lo(a)); }
    else { HeapEffect(m, m', at, bytes, a); }
  }

  lemma StackEffect(m: Mem, m': Mem, lo: nat, bytes: seq<byte>, hi': int, lo': nat)
    requires Cell(lo).Some? && Cell(lo).value + |bytes| <= |m.stack|
    requires m' == m.(stack := Overwrite(m.stack, Cell(lo).value, bytes))
    ensures ByteIn(m', hi', lo') ==
      if hi' == 2 && Cell(lo').Some? && 0 <= Cell(lo').value - Cell(lo).value < |bytes|
      then Some(bytes[Cell(lo').value - Cell(lo).value]) else ByteIn(m, hi', lo')
  {
  }

  lemma HeapEffect(m: Mem, m': Mem, at: u64, bytes: seq<byte>, a: int)
    requires Hi(at) == 3 && Lo(at) + |bytes| <= |m.heap|
    requires m' == m.(heap := Overwrite(m.heap, Lo(at), bytes))
    ensures ByteAt(m', a) == Affected(ByteAt(m, a), Put(at, bytes), a)
  {
    if Hi(a) == 3 { assert a - at == Lo(a) - Lo(at); }
  }

  // ---------------------------------------------------------------- system calls

  /** What one request does to memory. */
  function RequestEffects(x: Inside, q: Request): seq<Effect> {
    match q
    case Write(addr, bytes) => if |bytes| < U64_SIZE && Store(x.mem, addr, bytes).Some? then [Put(addr, bytes)] else []
    case WriteWord(addr, bytes) =>
      if Width(|bytes|) && StoreAligned(x.mem, addr, bytes).Some? then [Put(addr, bytes)] else []
    case GrowHeap(size) => if |x.mem.heap| < size <= HEAP_MAX then [Extend(|x.mem.heap|, size)] else []
    case _ => []
  }

  lemma ServeIsFlat(x: Inside, q: Request, a: int)
    ensures ByteAt(Serve(x, q).0.mem, a) == Latest(ByteAt(x.mem, a), RequestEffects(x, q), a)
  {
    var (before, es) := (ByteAt(x.mem, a), RequestEffects(x, q));
    if es != [] {
      LatestOne(before, es[0], a);
      if q.Write? { StoreEffect(x.mem, q.addr, q.bytes, a); }
      if q.WriteWord? { StoreEffect(x.mem, q.addr, q.bytes, a); }
    }
  }

  /** What a whole system call does to memory. */
  function CallEffects(sys: Syscall, args: seq<u64>, x: Inside, answers: seq<Option<seq<byte>>>, left: nat): seq<Effect>
    decreases left
  {
    if left == 0 then [] else
    var (q, host) := sys.next(x.host, args, answers);
    if q.Return? || q.Abort? then [] else
    var y := x.(host := host);
    var (z, a) := Serve(y, q);
    RequestEffects(y, q) + CallEffects(sys, args, z, answers + [a], left - 1)
  }

  lemma {:induction false} CallIsFlat(sys: Syscall, args: seq<u64>, x: Inside, answers: seq<Option<seq<byte>>>,
      left: nat, a: int)
    ensures ByteAt(Invoke(sys, args, x, answers, left).0.mem, a)
         == Latest(ByteAt(x.mem, a), CallEffects(sys, args, x, answers, left), a)
    decreases left
  {
    if left > 0 {
      var (q, host) := sys.next(x.host, args, answers);
      if !q.Return? && !q.Abort? {
        var y := x.(host := host);
        var (z, r) := Serve(y, q);
        ServeIsFlat(y, q, a);
        CallIsFlat(sys, args, z, answers + [r], left - 1, a);
        LatestSplit(ByteAt(x.mem, a), RequestEffects(y, q), CallEffects(sys, args, z, answers + [r], left - 1), a);
      }
    }
  }

  // ---------------------------------------------------------------- instructions

  /** What an instruction does to memory: a store puts its bytes at its address, a system
      call does what its requests do, everything else nothing. */
  function InsEffects(p: Prog, i: Ins, s: State): seq<Effect>
    requires i.dst <= 10 && i.src <= 10
  {
    var n, k := AccessWidth(i.op, 3), AccessWidth(i.op, 2);
    var at := Wrap64(s.regs[i.dst] + i.off);
    if n != 0 then [Put(at, LE(s.regs[i.src], n))]
    else if k != 0 then [Put(at, LE(Unsigned64(i.imm), k))]
    else if i.op == CALL && p.syscalls(Unsigned32(i.imm)).Some? then
      var sys := p.syscalls(Unsigned32(i.imm)).value;
      CallEffects(sys, s.regs[1..6], Inside(s.mem, s.host, s.remaining), [], sys.limit)
    else []
  }

  lemma OpcodeClass(op: byte, c: nat)
    requires c < 8 && AccessWidth(op, c) != 0
    ensures op % 8 == c && op != LDDW
  {
  }

  lemma StoreValueIsFlat(i: Ins, s: State, n: nat, v: u64, a: int)
    requires i.dst <= 10 && Width(n) && s.mem.Valid() && StoreValue(i, s, n, v).Next?
    ensures var at := Wrap64(s.regs[i.dst] + i.off);
      && ByteAt(StoreValue(i, s, n, v).s.mem, a) == Latest(ByteAt(s.mem, a), [Put(at, LE(v, n))], a)
      && Inside4K(at, n)
  {
    var (at, bytes) := (Wrap64(s.regs[i.dst] + i.off), LE(v, n));
    StoreEffect(s.mem, at, bytes, a);
    LatestOne(ByteAt(s.mem, a), Put(at, bytes), a);
    AlignedInside(s.mem, at, n);
  }

  lemma StoreRegisterIsFlat(p: Prog, i: Ins, s: State, a: int)
    requires i.dst <= 10 && i.src <= 10 && s.mem.Valid() && StoreRegister(i, s).Next?
    ensures ByteAt(StoreRegister(i, s).s.mem, a) == Latest(ByteAt(s.mem, a), InsEffects(p, i, s), a)
  {
    var n, v := StoredValue(p, i, s);
    StoreValueIsFlat(i, s, n, v, a);
  }

  /** The width and the value that a store puts into memory. */
  lemma StoredValue(p: Prog, i: Ins, s: State) returns (n: nat, v: u64)
    requires i.dst <= 10 && i.src <= 10 && StoreRegister(i, s).Next?
    ensures Width(n) && StoreRegister(i, s) == StoreValue(i, s, n, v)
    ensures InsEffects(p, i, s) == [Put(Wrap64(s.regs[i.dst] + i.off), LE(v, n))]
  {
    n, v := AccessWidth(i.op, 3), s.regs[i.src];
    if n == 0 { n, v := AccessWidth(i.op, 2), Unsigned64(i.imm); }
  }

  predicate IsStore(i: Ins) {
    AccessWidth(i.op, 3) != 0 || AccessWidth(i.op, 2) != 0
  }

  lemma ExecutesStore(p: Prog, i: Ins, s: State)
    requires 0 <= s.pc < |p.text| && i.dst <= 10 && i.src <= 10 && IsStore(i)
    ensures Execute(p, i, s) == StoreRegister(i, s)
  {
    if AccessWidth(i.op, 3) != 0 { OpcodeClass(i.op, 3); } else { OpcodeClass(i.op, 2); }
  }

  predicate CallsHost(p: Prog, i: Ins) {
    i.op == CALL && p.syscalls(Unsigned32(i.imm)).Some?
  }

  lemma ExecutesCall(p: Prog, i: Ins, s: State)
    requires 0 <= s.pc < |p.text| && i.dst <= 10 && i.src <= 10 && CallsHost(p, i)
    ensures var sys := p.syscalls(Unsigned32(i.imm)).value;
      Execute(p, i, s).s.mem
        == Invoke(sys, s.regs[1..6], Inside(s.mem, s.host, s.remaining), [], sys.limit).0.mem
  {
  }

  lemma ExecutesElse(p: Prog, i: Ins, s: State)
    requires 0 <= s.pc < |p.text| && i.dst <= 10 && i.src <= 10 && !IsStore(i) && !CallsHost(p, i)
    ensures Execute(p, i, s).s.mem == s.mem
  {
  }

  lemma ExecuteIsFlat(p: Prog, i: Ins, s: State, o: Outcome, a: int)
    requires 0 <= s.pc < |p.text| && i.dst <= 10 && i.src <= 10 && s.mem.Valid()
    requires o == Execute(p, i, s) && o.Next?
    ensures ByteAt(o.s.mem, a) == Latest(ByteAt(s.mem, a), InsEffects(p, i, s), a)
  {
    if IsStore(i) {
      ExecutesStore(p, i, s);
      StoreRegisterIsFlat(p, i, s, a);
    } else if CallsHost(p, i) {
      ExecutesCall(p, i, s);
      var sys := p.syscalls(Unsigned32(i.imm)).value;
      CallIsFlat(sys, s.regs[1..6], Inside(s.mem, s.host, s.remaining), [], sys.limit, a);
    } else {
      ExecutesElse(p, i, s);
    }
  }

  // ------------------------------------------------------------------ whole runs

  function StepEffects(p: Prog, s: State): seq<Effect> {
    if Decodable(p, s) && Cost(InsAt(p, s).op) <= s.remaining then InsEffects(p, InsAt(p, s), Paid(p, s)) else []
  }

  /** All that a run has done to memory, in order. */
  function RunEffects(p: Prog, t: seq<State>): seq<Effect> {
    if |t| <= 1 then [] else RunEffects(p, t[..|t| - 1]) + StepEffects(p, t[|t| - 2])
  }

  lemma StepIsFlat(p: Prog, s: State, s': State, a: int)
    requires s.mem.Valid() && Step(p, s) == Next(s')
    ensures s'.mem.Valid() && ByteAt(s'.mem, a) == Latest(ByteAt(s.mem, a), StepEffects(p, s), a)
  {
    Fetched(p, s);
    StepKeeps(p, s);
    ExecuteIsFlat(p, InsAt(p, s), Paid(p, s), Step(p, s), a);
  }

  /** Over any run of any program, system calls included, the four regions behave as one
      flat memory: at every address stands the byte of the last effect that reaches it,
      or what stood there at the start. */
  lemma {:induction false} RunIsFlat(p: Prog, t: seq<State>, a: int)
    requires IsRun(p, t) && t != [] && t[0].mem.Valid()
    ensures t[|t| - 1].mem.Valid()
    ensures ByteAt(t[|t| - 1].mem, a) == Latest(ByteAt(t[0].mem, a), RunEffects(p, t), a)
    decreases |t|
  {
    if |t| > 1 {
      var init := t[..|t| - 1];
      RunPrefix(p, t);
      RunIsFlat(p, init, a);
      assert Leads(p, t, |t| - 1);
      StepIsFlat(p, t[|t| - 2], t[|t| - 1], a);
      LatestSplit(ByteAt(t[0].mem, a), RunEffects(p, init), StepEffects(p, t[|t| - 2]), a);
    }
  }

  // ----------------------------------------------------------------------- loads

  ghost predicate Spells(m: Mem, at: int, bytes: seq<byte>) {
    forall a: int :: at <= a < at + |bytes| ==> ByteAt(m, a) == Some(bytes[a - at])
  }

  lemma LoadedWord(i: Ins, s: State, n: nat, at: u64)
    requires i.dst <= 10 && i.src <= 10 && n == AccessWidth(i.op, 1) != 0 && at == Wrap64(s.regs[i.src] + i.off)
    ensures var r := LoadAligned(s.mem, at, n);
            LoadRegister(i, s)
            == if r.None? then Fail(InvalidAccess, s)
              else Next(s.(pc := s.pc + 1, regs := s.regs[i.dst := Word(r.value)]))
  {
    Received(i, s, LoadAligned(s.mem, at, n));
  }

  lemma Received(i: Ins, s: State, r: Option<seq<byte>>)
    requires i.dst <= 10
    ensures Receive(i, s, r)
            == if r.None? then Fail(InvalidAccess, s)
              else Next(s.(pc := s.pc + 1, regs := s.regs[i.dst := Word(r.value)]))
  {
  }

  lemma FlatWord(m: Mem, at: u64, n: nat) returns (bytes: seq<byte>)
    requires m.Valid() && Width(n)
    ensures LoadAligned(m, at, n) == if Aligned(at, n) && AllMapped(m, at, n) then Some(bytes) else None
    ensures Aligned(at, n) && AllMapped(m, at, n) ==> |bytes| == n && Spells(m, at, bytes)
  {
    LoadIsFlat(m, at, n);
    var r := LoadAligned(m, at, n);
    bytes := if r.Some? then r.value else [];
  }

  lemma LoadOutcome(i: Ins, s: State, n: nat, at: u64) returns (bytes: seq<byte>)
    requires i.dst <= 10 && i.src <= 10 && n == AccessWidth(i.op, 1) != 0 && at == Wrap64(s.regs[i.src] + i.off)
    requires s.mem.Valid()
    ensures LoadRegister(i, s).Next? <==> Aligned(at, n) && AllMapped(s.mem, at, n)
    ensures LoadRegister(i, s).Next? ==> |bytes| == n && Spells(s.mem, at, bytes)
    ensures LoadRegister(i, s).Next? ==>
      LoadRegister(i, s).s == s.(pc := s.pc + 1, regs := s.regs[i.dst := Word(bytes)])
  {
    LoadedWord(i, s, n, at);
    bytes := FlatWord(s.mem, at, n);
  }

  /** A load instruction succeeds exactly when its address is aligned and every
      byte is mapped, and leaves the number those flat bytes spell. */
  lemma LoadStep(p: Prog, s: State) returns (o: Outcome, bytes: seq<byte>)
    requires s.mem.Valid() && Decodable(p, s) && Cost(InsAt(p, s).op) <= s.remaining
    requires AccessWidth(InsAt(p, s).op, 1) != 0
    ensures o == Step(p, s)
    ensures var i := InsAt(p, s);
            var n, at := AccessWidth(i.op, 1), Wrap64(s.regs[i.src] + i.off);
            && (o.Next? <==> Aligned(at, n) && AllMapped(s.mem, at, n))
            && (o.Next? ==> |bytes| == n && Spells(s.mem, at, bytes)
                            && o.s == Paid(p, s).(pc := s.pc + 1, regs := s.regs[i.dst := Word(bytes)]))
  {
    o := StepOfLoad(p, s);
    var i := InsAt(p, s);
    bytes := LoadOutcome(i, Paid(p, s), AccessWidth(i.op, 1), Wrap64(s.regs[i.src] + i.off));
  }

  lemma StepOfLoad(p: Prog, s: State) returns (o: Outcome)
    requires Decodable(p, s) && Cost(InsAt(p, s).op) <= s.remaining && AccessWidth(InsAt(p, s).op, 1) != 0
    ensures o == Step(p, s) == LoadRegister(InsAt(p, s), Paid(p, s))
  {
    OpcodeClass(InsAt(p, s).op, 1);
    o := Step(p, s);
  }
}
