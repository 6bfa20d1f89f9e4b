/** The interpreter object (pkg/svm/sbpf/vm.go and memory.go): memory, frames and
    meter changed in place, each method proved against the step function of Vm. */
module Interpreter {
  import opened Bytes
  import opened VmMemory
  import opened VmIsa
  import Vm

  datatype Status = Continue | Done | Failed(e: Vm.Error)

  ghost function StatusOf(o: Vm.Outcome): Status {
    match o
    case Next(_) => Continue
    case Halt(_) => Done
    case Fail(e, _) => Failed(e)
  }

  class Machine {
    const prog: Vm.Prog
    const entry: u64
    const ro: array<byte>
    const input: array<byte>
    const stackMem: array<byte>
    var heap: array<byte>
    var frames: seq<Vm.Frame>
    var host: Vm.Host
    var remaining: u64
    var halted: bool

    ghost predicate Valid() reads this {
      && stackMem.Length == STACK_SIZE && heap.Length <= HEAP_MAX
      && stackMem != heap && stackMem != ro && stackMem != input && heap != ro && heap != input
    }

    ghost function Memory(): Mem reads this, ro, input, stackMem, heap {
      Mem(ro[..], stackMem[..], heap[..], input[..])
    }

    ghost function At(pc: int, regs: Vm.Regs): Vm.State reads this, ro, input, stackMem, heap {
      Vm.State(pc, regs, frames, Memory(), host, remaining)
    }

    ghost function Within(): Vm.Inside reads this, ro, input, stackMem, heap {
      Vm.Inside(Memory(), host, remaining)
    }

    /** A heap of zero bytes is asked for by default, and 256 KB at most. */
    constructor (prog: Vm.Prog, entry: u64, ro: array<byte>, input: array<byte>, heapSize: u64, maxCU: u64,
                 host: Vm.Host)
      ensures Valid() && fresh(stackMem) && fresh(heap)
      ensures this.prog == prog && this.entry == entry && this.ro == ro && this.input == input
      ensures frames == [] && this.host == host && remaining == maxCU && !halted
      ensures heap.Length == (if heapSize == 0 then HEAP_DEFAULT else Min(heapSize, HEAP_MAX))
      ensures stackMem[..] == ZeroBytes(STACK_SIZE) && heap[..] == ZeroBytes(heap.Length)
    {
      var size: int := heapSize;
      if size == 0 { size := HEAP_DEFAULT; }
      if size > HEAP_MAX { size := HEAP_MAX; }
      this.prog, this.entry, this.ro, this.input := prog, entry, ro, input;
      stackMem := new byte[STACK_SIZE](_ => 0);
      heap := new byte[size](_ => 0);
      frames, this.host, remaining, halted := [], host, maxCU, false;
    }

    // ------------------------------------------------------------------ memory

    /** The slice of memory behind an address: an array and where to start in it. */
    method TranslateSlice(addr: u64, size: u64, write: bool) returns (ok: bool, arr: array<byte>, start: nat)
      requires Valid()
      ensures ok <==> Translate(Memory(), addr, size, write).Some?
      ensures ok ==> var s := Translate(Memory(), addr, size, write).value;
                     && start == s.start && start + size <= arr.Length
                     && arr == (match s.region
                       case Program => ro case Stack => stackMem case Heap => heap case Input => input)
      ensures ok && write ==> arr == stackMem || arr == heap
    {
      ok, arr, start := false, ro, 0;
      var hi, lo := Hi(addr), Lo(addr);
      if size > 0 && lo > 0xFFFF_FFFF_FFFF_FFFF - size { return; }
      var end := lo + size;
      if hi == 1 {
        if write || end > ro.Length { return; }
        return true, ro, lo;
      } else if hi == 2 {
        var frame := GetFrame(stackMem.Length, lo);
        if frame.None? || stackMem.Length - frame.value < size { return; }
        return true, stackMem, frame.value;
      } else if hi == 3 {
        if end > heap.Length { return; }
        return true, heap, lo;
      } else if hi == 4 {
        if write || end > input.Length { return; }
        return true, input, lo;
      }
    }

    method ReadBytes(addr: u64, size: u64) returns (r: Option<seq<byte>>)
      requires Valid()
      ensures r == Load(Memory(), addr, size)
    {
      var ok, arr, start := TranslateSlice(addr, size, false);
      if !ok { return None; }
      return Some(arr[start..start + size]);
    }

    method WriteBytes(addr: u64, bytes: seq<byte>) returns (ok: bool)
      requires Valid() && |bytes| < U64_SIZE
      modifies stackMem, heap
      ensures ok <==> Store(old(Memory()), addr, bytes).Some?
      ensures Memory() == if ok then Store(old(Memory()), addr, bytes).value else old(Memory())
    {
      ghost var before := Memory();
      var arr: array<byte>, start: nat;
      ok, arr, start := TranslateSlice(addr, |bytes|, true);
      if !ok { return; }
      CopyInto(arr, start, bytes);
      assert arr[..] == arr[..start] + arr[start..start + |bytes|] + arr[start + |bytes|..];
      ghost var s := Translate(before, addr, |bytes|, true).value;
      assert arr[..] == Overwrite(old(arr[..]), start, bytes);
    }

    /** The aligned 1, 2, 4 and 8 byte accesses. */
    method ReadWord(addr: u64, n: nat) returns (r: Option<seq<byte>>)
      requires Valid() && Width(n)
      ensures r == LoadAligned(Memory(), addr, n)
    {
      if !Aligned(addr, n) { return None; }
      r := ReadBytes(addr, n);
    }

    method WriteWord(addr: u64, bytes: seq<byte>) returns (ok: bool)
      requires Valid() && Width(|bytes|)
      modifies stackMem, heap
      ensures ok <==> StoreAligned(old(Memory()), addr, bytes).Some?
      ensures Memory() == if ok then StoreAligned(old(Memory()), addr, bytes).value else old(Memory())
    {
      if !Aligned(addr, |bytes|) { return false; }
      ok := WriteBytes(addr, bytes);
    }

    method UpdateHeapSize(size: u64)
      requires Valid()
      modifies this`heap
      ensures Valid() && Memory() == Vm.Grown(old(Memory()), size)
      ensures heap == old(heap) || fresh(heap)
    {
      if size <= HEAP_MAX && size > heap.Length {
        var newHeap := new byte[size](_ => 0);
        CopyInto(newHeap, 0, heap[..]);
        assert newHeap[..] == newHeap[..heap.Length] + newHeap[heap.Length..];
        heap := newHeap;
      }
    }

    // ------------------------------------------------------------ system calls

    /** One request of a host function, through the same memory interface. */
    method ServeRequest(q: Vm.Request) returns (a: Option<seq<byte>>)
      requires Valid()
      modifies this`heap, this`remaining, stackMem, heap
      ensures Valid() && (heap == old(heap) || fresh(heap))
      ensures (Within(), a) == Vm.Serve(old(Within()), q)
    {
      match q
      case Read(addr, size) =>
        a := ReadBytes(addr, size);
      case ReadWord(addr, n) =>
        if Width(n) { a := ReadWord(addr, n); } else { a := None; }
      case Write(addr, bytes) =>
        var ok := false;
        if |bytes| < U64_SIZE { ok := WriteBytes(addr, bytes); }
        a := if ok then Some([]) else None;
      case WriteWord(addr, bytes) =>
        var ok := false;
        if Width(|bytes|) { ok := WriteWord(addr, bytes); }
        a := if ok then Some([]) else None;
      case HeapSize =>
        a := Some(LE(heap.Length, 8));
      case GrowHeap(size) =>
        UpdateHeapSize(size);
        a := Some([]);
      case Charge(cost) =>
        var ok := Consume(cost);
        a := if ok then Some([]) else None;
      case Remaining =>
        a := Some(LE(remaining, 8));
      case _ =>
        a := None;
    }

    method InvokeSyscall(sys: Vm.Syscall, args: seq<u64>) returns (r: Option<u64>)
      requires Valid()
      modifies this`heap, this`host, this`remaining, stackMem, heap
      ensures Valid() && (heap == old(heap) || fresh(heap))
      ensures (Within(), r) == Vm.Invoke(sys, args, old(Within()), [], sys.limit)
    {
      var answers: seq<Option<seq<byte>>>, left := [], sys.limit;
      while left > 0
        invariant 0 <= left <= sys.limit
        invariant Valid() && (heap == old(heap) || fresh(heap))
        invariant Vm.Invoke(sys, args, Within(), answers, left) == Vm.Invoke(sys, args, old(Within()), [], sys.limit)
      {
        var (q, kept) := sys.next(host, args, answers);
        host := kept;
        if q.Return? { return Some(q.r0); }
        if q.Abort? { return None; }
        var a := ServeRequest(q);
        answers, left := answers + [a], left - 1;
      }
      r := None;
    }

    // ------------------------------------------------------------ frames, meter

    method Push(regs: Vm.Regs, ret: int) returns (ok: bool, regs': Vm.Regs)
      modifies this`frames
      ensures ok <==> |old(frames)| < Vm.STACK_DEPTH
      ensures ok ==> frames == old(frames) + [Vm.Frame(regs[10], regs[6..10], ret)]
      ensures ok ==> regs' == regs[10 := Vm.NextFrame(regs[10])]
      ensures !ok ==> frames == old(frames) && regs' == regs
    {
      if |frames| >= Vm.STACK_DEPTH { return false, regs; }
      frames := frames + [Vm.Frame(regs[10], regs[6..10], ret)];
      return true, regs[10 := Vm.NextFrame(regs[10])];
    }

    method Pop(regs: Vm.Regs) returns (ok: bool, ret: int, regs': Vm.Regs)
      modifies this`frames
      ensures ok <==> old(frames) != []
      ensures ok ==> var f := old(frames)[|old(frames)| - 1];
                     frames == old(frames)[..|old(frames)| - 1] && ret == f.ret && regs' == Vm.Restored(regs, f)
      ensures !ok ==> frames == old(frames) && regs' == regs
    {
      if |frames| == 0 { return false, 0, regs; }
      var f := frames[|frames| - 1];
      frames := frames[..|frames| - 1];
      regs' := regs[..6] + f.saved + regs[10..];
      regs' := regs'[10 := f.ptr];
      assert regs' == Vm.Restored(regs, f);
      return true, f.ret, regs';
    }

    method Consume(cost: u64) returns (ok: bool)
      modifies this`remaining
      ensures ok <==> old(remaining) >= cost
      ensures remaining == if ok then old(remaining) - cost else 0
    {
      if remaining < cost {
        remaining := 0;
        return false;
      }
      remaining := remaining - cost;
      return true;
    }

    // ---------------------------------------------------------------- execution

    method ExecCall(i: Ins, pc: int, regs: Vm.Regs) returns (st: Status, pc': int, regs': Vm.Regs)
      requires Valid()
      modifies this`heap, this`frames, this`host, this`remaining, stackMem, heap
      ensures Valid() && (heap == old(heap) || fresh(heap))
      ensures var o := Vm.Call(prog, i, old(At(pc, regs))); st == StatusOf(o) && At(pc', regs') == o.s
    {
      st, pc', regs' := Continue, pc, regs;
      var hash := Unsigned32(i.imm);
      var sys := prog.syscalls(hash);
      if sys.Some? {
        var r := InvokeSyscall(sys.value, regs[1..6]);
        if r.None? { return Failed(Vm.SyscallFailed), pc, regs; }
        return Continue, pc + 1, regs[0 := r.value];
      } else if hash in prog.functions {
        var ok;
        ok, regs' := Push(regs, pc + 1);
        if !ok { return Failed(Vm.CallDepthExceeded), pc, regs; }
        pc' := Signed64(prog.functions[hash]);
      } else if i.src == 1 {
        var ok;
        ok, regs' := Push(regs, pc + 1);
        if !ok { return Failed(Vm.CallDepthExceeded), pc, regs; }
        pc' := pc + i.imm + 1;
      } else {
        st := Failed(Vm.UnknownCall);
      }
    }

    method ExecExit(pc: int, regs: Vm.Regs) returns (st: Status, pc': int, regs': Vm.Regs)
      requires Valid()
      modifies this`frames
      ensures var o := Vm.Exit(old(At(pc, regs))); st == StatusOf(o) && At(pc', regs') == o.s
    {
      var ok, ret, restored := Pop(regs);
      if !ok { return Done, pc, regs; }
      return Continue, ret, restored;
    }

    method ExecLoad(i: Ins, pc: int, regs: Vm.Regs) returns (st: Status, pc': int, regs': Vm.Regs)
      requires Valid() && i.dst <= 10 && i.src <= 10
      ensures var o := Vm.LoadRegister(i, At(pc, regs)); st == StatusOf(o) && At(pc', regs') == o.s
    {
      var n := Vm.AccessWidth(i.op, 1);
      if n == 0 { return Failed(Vm.InvalidInstruction), pc, regs; }
      var val := ReadWord(Wrap64(regs[i.src] + i.off), n);
      if val.None? { return Failed(Vm.InvalidAccess), pc, regs; }
      return Continue, pc + 1, regs[i.dst := Vm.Word(val.value)];
    }

    method ExecStore(i: Ins, pc: int, regs: Vm.Regs) returns (st: Status, pc': int, regs': Vm.Regs)
      requires Valid() && i.dst <= 10 && i.src <= 10
      modifies stackMem, heap
      ensures var o := Vm.StoreRegister(i, old(At(pc, regs))); st == StatusOf(o) && At(pc', regs') == o.s
    {
      var n, k := Vm.AccessWidth(i.op, 3), Vm.AccessWidth(i.op, 2);
      var ok;
      if n != 0 {
        ok := WriteWord(Wrap64(regs[i.dst] + i.off), LE(regs[i.src], n));
      } else if k != 0 {
        ok := WriteWord(Wrap64(regs[i.dst] + i.off), LE(Unsigned64(i.imm), k));
      } else {
        return Failed(Vm.InvalidInstruction), pc, regs;
      }
      if !ok { return Failed(Vm.InvalidAccess), pc, regs; }
      return Continue, pc + 1, regs;
    }

    method ExecAlu(i: Ins, pc: int, regs: Vm.Regs) returns (st: Status, pc': int, regs': Vm.Regs)
      requires Valid() && i.dst <= 10 && i.src <= 10 && (i.op % 8 == 4 || i.op % 8 == 7)
      ensures var o := Vm.Arithmetic(i, At(pc, regs)); st == StatusOf(o) && At(pc', regs') == o.s
    {
      match Alu(i.op, regs[i.dst], regs[i.src], i.imm)
      case Illegal => return Failed(Vm.InvalidInstruction), pc, regs;
      case DivisionByZero => return Failed(Vm.DivideByZero), pc, regs;
      case Value(v) => return Continue, pc + 1, regs[i.dst := v];
    }

    method ExecJump(i: Ins, pc: int, regs: Vm.Regs) returns (st: Status, pc': int)
      requires Valid() && i.dst <= 10 && i.src <= 10 && (i.op % 8 == 5 || i.op % 8 == 6)
      ensures var o := Vm.Jump(i, At(pc, regs)); st == StatusOf(o) && At(pc', regs) == o.s
    {
      var taken := Taken(i.op, regs[i.dst], regs[i.src], i.imm);
      if taken.None? { return Failed(Vm.InvalidInstruction), pc; }
      pc' := pc;
      if taken.value { pc' := pc' + i.off; }
      return Continue, pc' + 1;
    }

    method ExecWide(i: Ins, pc: int, regs: Vm.Regs) returns (st: Status, pc': int, regs': Vm.Regs)
      requires Valid() && 0 <= pc < |prog.text| && i.dst <= 10
      ensures var o := Vm.LoadWide(prog, i, At(pc, regs)); st == StatusOf(o) && At(pc', regs') == o.s
    {
      if pc + 1 >= |prog.text| { return Failed(Vm.InvalidInstruction), pc, regs; }
      if i.dst == 10 { return Failed(Vm.InvalidInstruction), pc, regs; }
      var high: u32 := prog.text[pc + 1] / 0x1_0000_0000;
      return Continue, pc + 2, regs[i.dst := Unsigned32(i.imm) + 0x1_0000_0000 * high];
    }

    method ExecuteInPlace(i: Ins, pc: int, regs: Vm.Regs) returns (st: Status, pc': int, regs': Vm.Regs)
      requires Valid() && 0 <= pc < |prog.text| && i.dst <= 10 && i.src <= 10
      modifies this`heap, this`frames, this`host, this`remaining, stackMem, heap
      ensures Valid() && (heap == old(heap) || fresh(heap))
      ensures var o := Vm.Execute(prog, i, old(At(pc, regs))); st == StatusOf(o) && At(pc', regs') == o.s
    {
      var class_ := i.op % 8;
      if i.op == Vm.LDDW {
        st, pc', regs' := ExecWide(i, pc, regs);
      } else if class_ == 4 || class_ == 7 {
        st, pc', regs' := ExecAlu(i, pc, regs);
      } else if class_ == 1 {
        st, pc', regs' := ExecLoad(i, pc, regs);
      } else if class_ == 2 || class_ == 3 {
        st, pc', regs' := ExecStore(i, pc, regs);
      } else if i.op == Vm.CALL {
        st, pc', regs' := ExecCall(i, pc, regs);
      } else if i.op == Vm.EXIT {
        st, pc', regs' := ExecExit(pc, regs);
      } else if class_ == 5 || class_ == 6 {
        regs' := regs;
        st, pc' := ExecJump(i, pc, regs);
      } else {
        st, pc', regs' := Failed(Vm.InvalidInstruction), pc, regs;
      }
    }

    method StepInPlace(pc: int, regs: Vm.Regs) returns (st: Status, pc': int, regs': Vm.Regs)
      requires Valid()
      modifies this`heap, this`frames, this`host, this`remaining, stackMem, heap
      ensures Valid() && (heap == old(heap) || fresh(heap))
      ensures var o := Vm.Step(prog, old(At(pc, regs))); st == StatusOf(o) && At(pc', regs') == o.s
    {
      if pc < 0 || pc >= |prog.text| { return Failed(Vm.PcOutOfBounds), pc, regs; }
      var i := Decode(prog.text[pc]);
      var paid := Consume(Cost(i.op));
      if !paid { return Failed(Vm.ComputeExceeded), pc, regs; }
      if i.dst > 10 || i.src > 10 { return Failed(Vm.InvalidInstruction), pc, regs; }
      st, pc', regs' := ExecuteInPlace(i, pc, regs);
    }

    /** Runs to the end. Every turn of the loop takes at least one unit from the
        meter, nothing is indexed out of range on the way, and the program and
        input regions are not even in the frame of what may change. */
    method Run() returns (st: Status, r0: u64, ghost o: Vm.Outcome)
      requires Valid()
      modifies this, stackMem, heap
      ensures Valid() && (heap == old(heap) || fresh(heap))
      ensures !old(halted) ==> o == Vm.Run(prog, old(At(Signed64(entry), Vm.START_REGS)))
      ensures old(halted) ==> o == Vm.Halt(old(At(Signed64(entry), Vm.START_REGS)))
      ensures st == StatusOf(o) && Memory() == o.s.mem && frames == o.s.frames
      ensures host == o.s.host && remaining == o.s.remaining
      ensures r0 == if st == Done then o.s.regs[0] else 0
    {
      var regs: Vm.Regs := Vm.START_REGS;
      var pc: int := Signed64(entry);
      ghost var start := At(pc, regs);
      while !halted
        invariant Valid() && (heap == old(heap) || fresh(heap))
        invariant old(halted) ==> halted && At(pc, regs) == start
        invariant !old(halted) ==> !halted && Vm.Run(prog, At(pc, regs)) == Vm.Run(prog, start)
        decreases remaining, !halted
      {
        ghost var s := At(pc, regs);
        if Vm.Step(prog, s).Next? { Vm.StepPays(prog, s); }
        st, pc, regs := StepInPlace(pc, regs);
        if st.Done? {
          o := Vm.Halt(At(pc, regs));
          halted := true;
          return st, regs[0], o;
        }
        if st.Failed? {
          o := Vm.Fail(st.e, At(pc, regs));
          return st, 0, o;
        }
      }
      o := Vm.Halt(start);
      return Done, regs[0], o;
    }
  }
}
