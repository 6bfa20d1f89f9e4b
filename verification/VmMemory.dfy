/** The four memory regions of the sBPF machine and the translation of virtual
    addresses (pkg/svm/sbpf/memory.go). Below it stands the flat picture, one
    byte per mapped address, that aligned accesses refine. */
module VmMemory {
  import opened Bytes

  const STACK_SIZE: int := 0x4_0000
  const HEAP_DEFAULT: int := 0x8000
  const HEAP_MAX: int := 0x4_0000

  /** Contents of the regions at one moment. */
  datatype Mem = Mem(ro: seq<byte>, stack: seq<byte>, heap: seq<byte>, input: seq<byte>) {
    ghost predicate Valid() { |stack| == STACK_SIZE && |heap| <= HEAP_MAX }

    function At(r: Region): seq<byte> {
      match r
      case Program => ro
      case Stack => stack
      case Heap => heap
      case Input => input
    }
  }

  datatype Region = Program | Stack | Heap | Input

  /** A slice of a region, as Translate hands it out. */
  datatype Slice = Slice(region: Region, start: nat)

  // -------------------------------------------------------------- translation

  /** The stack mapping: 4 KB frames, with a 4 KB gap behind each. */
  function Cell(lo: nat): Option<nat> {
    if lo % 8192 < 4096 then Some(lo / 8192 * 4096 + lo % 8192) else None
  }

  /** Where the stack slice for an address starts; None in a gap or past the end.
      The slice itself runs on to the end of the whole stack. */
  function GetFrame(stackLen: nat, lo: nat): Option<nat> {
    match Cell(lo)
    case None => None
    case Some(c) => if c < stackLen then Some(c) else None
  }

  function TranslateIn(m: Mem, hi: int, lo: nat, size: nat, write: bool): Option<Slice> {
    if hi == 1 then if write || lo + size > |m.ro| then None else Some(Slice(Program, lo))
    else if hi == 2 then
      match GetFrame(|m.stack|, lo)
      case None => None
      case Some(start) => if |m.stack| - start < size then None else Some(Slice(Stack, start))
    else if hi == 3 then if lo + size > |m.heap| then None else Some(Slice(Heap, lo))
    else if hi == 4 then if write || lo + size > |m.input| then None else Some(Slice(Input, lo))
    else None
  }

  function Hi(addr: int): int { addr / 0x1_0000_0000 }
  function Lo(addr: int): nat { addr % 0x1_0000_0000 }

  function Translate(m: Mem, addr: u64, size: u64, write: bool): Option<Slice> {
    if size > 0 && Lo(addr) > 0xFFFF_FFFF_FFFF_FFFF - size then None
    else TranslateIn(m, Hi(addr), Lo(addr), size, write)
  }

  function Load(m: Mem, addr: u64, size: u64): Option<seq<byte>> {
    match Translate(m, addr, size, false)
    case None => None
    case Some(s) => Some(m.At(s.region)[s.start..s.start + size])
  }

  function Overwrite(s: seq<byte>, at: nat, bytes: seq<byte>): (t: seq<byte>)
    requires at + |bytes| <= |s|
    ensures |t| == |s|
    ensures forall i :: 0 <= i < |s| ==> t[i] == if at <= i < at + |bytes| then bytes[i - at] else s[i]
  {
    s[..at] + bytes + s[at + |bytes|..]
  }

  /** Only the stack and the heap are ever handed out for writing. */
  function StoreAt(m: Mem, s: Slice, bytes: seq<byte>): Mem
    requires s.start + |bytes| <= |m.At(s.region)| && (s.region == Stack || s.region == Heap)
  {
    if s.region == Stack then m.(stack := Overwrite(m.stack, s.start, bytes))
    else m.(heap := Overwrite(m.heap, s.start, bytes))
  }

  function Store(m: Mem, addr: u64, bytes: seq<byte>): Option<Mem>
    requires |bytes| < U64_SIZE
  {
    match Translate(m, addr, |bytes|, true)
    case None => None
    case Some(s) => Some(StoreAt(m, s, bytes))
  }

  /** The typed accesses insist on alignment; the bulk ones above do not. */
  predicate Aligned(x: int, n: int) {
    (n == 2 ==> x % 2 == 0) && (n == 4 ==> x % 4 == 0) && (n == 8 ==> x % 8 == 0)
  }

  function LoadAligned(m: Mem, addr: u64, n: u64): Option<seq<byte>>
  {
    if !Aligned(addr, n) then None else Load(m, addr, n)
  }

  function StoreAligned(m: Mem, addr: u64, bytes: seq<byte>): Option<Mem>
    requires |bytes| < U64_SIZE
  {
    if !Aligned(addr, |bytes|) then None else Store(m, addr, bytes)
  }

  // ----------------------------------------------------------------- flat view

  function ByteIn(m: Mem, hi: int, lo: nat): Option<byte> {
    if hi == 1 && lo < |m.ro| then Some(m.ro[lo])
    else if hi == 2 && Cell(lo).Some? && Cell(lo).value < |m.stack| then Some(m.stack[Cell(lo).value])
    else if hi == 3 && lo < |m.heap| then Some(m.heap[lo])
    else if hi == 4 && lo < |m.input| then Some(m.input[lo])
    else None
  }

  /** The byte at a virtual address, if that address is mapped. */
  function ByteAt(m: Mem, addr: int): Option<byte> {
    ByteIn(m, Hi(addr), Lo(addr))
  }

  predicate Writable(addr: int) {
    Hi(addr) == 2 || Hi(addr) == 3
  }

  predicate Width(n: int) {
    n == 1 || n == 2 || n == 4 || n == 8
  }

  ghost predicate AllMapped(m: Mem, addr: u64, n: nat) {
    forall a: int :: addr <= a < addr + n ==> ByteAt(m, a).Some?
  }

  // ------------------------------------------- widths divide powers of two

  /** An aligned run of a width stays inside a block whose size is a multiple of
      eight. */
  lemma NoCarry(r: nat, k: nat, n: nat, i: nat)
    requires Width(n) && Aligned(r, n) && i < n && r < 8 * k
    ensures r + i < 8 * k
  {
  }

  lemma Shift2(t: int, r: int)
    ensures (8 * t + r) % 2 == r % 2
  {
    assert 8 * t + r == 2 * (4 * t + r / 2) + r % 2;
  }

  lemma Shift4(t: int, r: int)
    ensures (8 * t + r) % 4 == r % 4
  {
    assert 8 * t + r == 4 * (2 * t + r / 4) + r % 4;
  }

  lemma Shift8(t: int, r: int)
    ensures (8 * t + r) % 8 == r % 8
  {
    assert 8 * t + r == 8 * (t + r / 8) + r % 8;
  }

  lemma AlignedShift(t: int, r: int, n: nat)
    requires Width(n)
    ensures Aligned(8 * t + r, n) <==> Aligned(r, n)
  {
    if n == 2 { Shift2(t, r); } else if n == 4 { Shift4(t, r); } else if n == 8 { Shift8(t, r); }
  }

  lemma Block(addr: nat, n: nat, i: nat)
    requires Width(n) && Aligned(addr, n) && i < n
    ensures Hi(addr + i) == Hi(addr) && Lo(addr + i) == Lo(addr) + i && Aligned(Lo(addr), n)
  {
    AlignedShift(addr / 0x1_0000_0000 * 0x2000_0000, addr % 0x1_0000_0000, n);
    NoCarry(addr % 0x1_0000_0000, 0x2000_0000, n, i);
  }

  lemma CellRun(lo: nat, n: nat, i: nat)
    requires Width(n) && Aligned(lo, n) && i < n
    ensures Cell(lo).None? ==> Cell(lo + i).None?
    ensures Cell(lo).Some? ==> Cell(lo + i) == Some(Cell(lo).value + i)
  {
    var q, r := lo / 8192, lo % 8192;
    AlignedShift(q * 1024, r, n);
    NoCarry(r, 1024, n, i);
    if r < 4096 { NoCarry(r, 512, n, i); }
    assert (lo + i) / 8192 == q && (lo + i) % 8192 == r + i;
  }

  /** An aligned run of cells lies inside one 4 KB frame of the stack memory. */
  lemma CellFrame(lo: nat, n: nat, i: nat)
    requires Width(n) && Aligned(lo, n) && i < n && Cell(lo).Some?
    ensures (Cell(lo).value + i) / 4096 == Cell(lo).value / 4096
  {
    var q, r := lo / 8192, lo % 8192;
    AlignedShift(q * 1024, r, n);
    NoCarry(r, 512, n, i);
    var k := r + i;
    assert (q * 4096 + r) / 4096 == q && (q * 4096 + k) / 4096 == q;
  }

  /** Different stack addresses are different cells: the gaps lose nothing. */
  lemma CellInjective(a: nat, b: nat)
    requires Cell(a).Some? && Cell(a) == Cell(b)
    ensures a == b
  {
  }

  // --------------------------------------------------------- aligned accesses

  lemma SliceIn(m: Mem, hi: int, lo: nat, n: nat, write: bool, i: nat)
    requires Width(n) && Aligned(lo, n) && i < n && TranslateIn(m, hi, lo, n, write).Some?
    ensures var s := TranslateIn(m, hi, lo, n, write).value;
            s.start + n <= |m.At(s.region)| && ByteIn(m, hi, lo + i) == Some(m.At(s.region)[s.start + i])
  {
    if hi == 2 { CellRun(lo, n, i); }
  }

  lemma AcceptedIn(m: Mem, hi: int, lo: nat, n: nat, write: bool)
    requires m.Valid() && Width(n) && Aligned(lo, n)
    requires ByteIn(m, hi, lo).Some? && ByteIn(m, hi, lo + (n - 1)).Some? && (write ==> hi == 2 || hi == 3)
    ensures TranslateIn(m, hi, lo, n, write).Some?
  {
    if hi == 2 { CellRun(lo, n, n - 1); }
  }

  lemma SliceByte(m: Mem, addr: u64, n: nat, write: bool, a: int)
    requires Width(n) && Aligned(addr, n) && addr <= a < addr + n && Translate(m, addr, n, write).Some?
    ensures var s := Translate(m, addr, n, write).value;
            s.start + n <= |m.At(s.region)| && ByteAt(m, a) == Some(m.At(s.region)[s.start + (a - addr)])
  {
    Block(addr, n, a - addr);
    SliceIn(m, Hi(addr), Lo(addr), n, write, a - addr);
  }

  lemma MappedAccepted(m: Mem, addr: u64, n: nat, write: bool)
    requires m.Valid() && Width(n) && Aligned(addr, n)
    requires ByteAt(m, addr).Some? && ByteAt(m, addr + (n - 1)).Some? && (write ==> Writable(addr))
    ensures Translate(m, addr, n, write).Some?
  {
    Block(addr, n, n - 1);
    AcceptedIn(m, Hi(addr), Lo(addr), n, write);
  }

  /** An aligned access is accepted exactly when all its bytes are mapped, and
      writable if it writes. */
  lemma AlignedAccepted(m: Mem, addr: u64, n: nat, write: bool)
    requires m.Valid() && Width(n) && Aligned(addr, n)
    ensures Translate(m, addr, n, write).Some? <==> AllMapped(m, addr, n) && (write ==> Writable(addr))
  {
    if Translate(m, addr, n, write).Some? {
      forall a: int | addr <= a < addr + n ensures ByteAt(m, a).Some? {
        SliceByte(m, addr, n, write, a);
      }
    } else if AllMapped(m, addr, n) && (write ==> Writable(addr)) {
      assert ByteAt(m, addr).Some? && ByteAt(m, addr + (n - 1)).Some?;
      MappedAccepted(m, addr, n, write);
    }
  }

  /** A successful aligned stack access stays inside one 4 KB frame. */
  lemma AlignedInOneFrame(m: Mem, addr: u64, n: nat, write: bool, i: nat)
    requires Width(n) && Aligned(addr, n) && i < n && Hi(addr) == 2 && Translate(m, addr, n, write).Some?
    ensures var s := Translate(m, addr, n, write).value;
            s.region == Stack && (s.start + i) / 4096 == s.start / 4096
  {
    Block(addr, n, 0);
    CellFrame(Lo(addr), n, i);
  }

  /** An aligned load returns the flat bytes, and is refused exactly when one of
      them is unmapped. */
  lemma LoadIsFlat(m: Mem, addr: u64, n: nat)
    requires m.Valid() && Width(n)
    ensures var r := LoadAligned(m, addr, n);
            && (r.Some? <==> Aligned(addr, n) && AllMapped(m, addr, n))
            && (r.Some? ==> |r.value| == n)
            && (r.Some? ==> forall a: int :: addr <= a < addr + n ==> ByteAt(m, a) == Some(r.value[a - addr]))
  {
    if Aligned(addr, n) {
      AlignedAccepted(m, addr, n, false);
      if Load(m, addr, n).Some? {
        forall a: int | addr <= a < addr + n ensures ByteAt(m, a) == Some(Load(m, addr, n).value[a - addr]) {
          LoadedByte(m, addr, n, a);
        }
      }
    }
  }

  lemma LoadedByte(m: Mem, addr: u64, n: nat, a: int)
    requires Width(n) && Aligned(addr, n) && addr <= a < addr + n && Load(m, addr, n).Some?
    ensures ByteAt(m, a) == Some(Load(m, addr, n).value[a - addr])
  {
    SliceByte(m, addr, n, false, a);
  }

  lemma CellBack(lo: nat, n: nat, lo': nat, k: nat)
    requires Width(n) && Aligned(lo, n) && Cell(lo).Some? && k < n && Cell(lo') == Some(Cell(lo).value + k)
    ensures lo' == lo + k
  {
    CellRun(lo, n, k);
    CellInjective(lo', lo + k);
  }

  lemma StoredCell(lo: nat, n: nat, lo': nat)
    requires Width(n) && Aligned(lo, n) && Cell(lo).Some? && Cell(lo').Some?
    ensures lo <= lo' < lo + n <==> Cell(lo).value <= Cell(lo').value < Cell(lo).value + n
    ensures lo <= lo' < lo + n ==> Cell(lo').value - Cell(lo).value == lo' - lo
  {
    if lo <= lo' < lo + n { CellForth(lo, n, lo'); }
    if Cell(lo).value <= Cell(lo').value < Cell(lo).value + n {
      CellBack(lo, n, lo', Cell(lo').value - Cell(lo).value);
    }
  }

  lemma CellForth(lo: nat, n: nat, lo': nat)
    requires Width(n) && Aligned(lo, n) && Cell(lo).Some? && lo <= lo' < lo + n
    ensures Cell(lo') == Some(Cell(lo).value + (lo' - lo))
  {
    CellRun(lo, n, lo' - lo);
  }

  lemma StoredIn(m: Mem, hi: int, lo: nat, bytes: seq<byte>, hi': int, lo': nat)
    requires Width(|bytes|) && Aligned(lo, |bytes|) && TranslateIn(m, hi, lo, |bytes|, true).Some?
    ensures ByteIn(StoreAt(m, TranslateIn(m, hi, lo, |bytes|, true).value, bytes), hi', lo')
         == if hi' == hi && lo <= lo' < lo + |bytes| then Some(bytes[lo' - lo]) else ByteIn(m, hi', lo')
  {
    if hi == 2 && hi' == 2 {
      if Cell(lo').Some? {
        StoredCell(lo, |bytes|, lo');
      } else if lo <= lo' < lo + |bytes| {
        CellRun(lo, |bytes|, lo' - lo);
      }
    }
  }

  lemma StoredByte(m: Mem, addr: u64, bytes: seq<byte>, a: int)
    requires Width(|bytes|) && Aligned(addr, |bytes|) && Store(m, addr, bytes).Some?
    ensures ByteAt(Store(m, addr, bytes).value, a)
         == if addr <= a < addr + |bytes| then Some(bytes[a - addr]) else ByteAt(m, a)
  {
    Block(addr, |bytes|, 0);
    StoredIn(m, Hi(addr), Lo(addr), bytes, Hi(a), Lo(a));
    if addr <= a < addr + |bytes| {
      Block(addr, |bytes|, a - addr);
    }
  }

  /** An aligned store is accepted exactly where every byte is mapped and writable,
      and then it changes exactly the bytes it names. */
  lemma StoreIsFlat(m: Mem, addr: u64, bytes: seq<byte>)
    requires m.Valid() && Width(|bytes|)
    ensures var r := StoreAligned(m, addr, bytes);
            && (r.Some? <==> Aligned(addr, |bytes|) && AllMapped(m, addr, |bytes|) && Writable(addr))
            && (r.Some? ==> forall a: int ::
                  ByteAt(r.value, a) == if addr <= a < addr + |bytes| then Some(bytes[a - addr]) else ByteAt(m, a))
  {
    if Aligned(addr, |bytes|) {
      AlignedAccepted(m, addr, |bytes|, true);
      if Store(m, addr, bytes).Some? {
        forall a: int
          ensures ByteAt(Store(m, addr, bytes).value, a)
               == if addr <= a < addr + |bytes| then Some(bytes[a - addr]) else ByteAt(m, a)
        {
          StoredByte(m, addr, bytes, a);
        }
      }
    }
  }

  // ------------------------------------------------------------ bulk accesses

  lemma BulkCell(lo: nat, i: nat)
    requires lo % 8192 < 4096 && i <= 4096 - lo % 8192
    ensures i < 4096 - lo % 8192 ==> Cell(lo + i) == Some(Cell(lo).value + i)
    ensures i == 4096 - lo % 8192 ==> Cell(lo + i) == None
  {
    var q, r := lo / 8192, lo % 8192;
    assert (lo + i) / 8192 == q && (lo + i) % 8192 == r + i;
  }

  lemma BulkAddress(addr: u64, i: nat)
    requires Lo(addr) % 8192 < 4096 && i <= 4096 - Lo(addr) % 8192
    ensures Hi(addr + i) == Hi(addr) && Lo(addr + i) == Lo(addr) + i
  {
    var lo := Lo(addr);
    assert lo + i <= lo / 8192 * 8192 + 4096;
    assert lo / 8192 <= 0x7_FFFF;
  }

  /** Bulk accesses (system calls only) ignore alignment and gaps. One that is
      accepted on the stack sees the flat bytes exactly when it ends inside the
      frame it starts in; otherwise it runs on into the next frame's memory. */
  lemma BulkStackAccess(m: Mem, addr: u64, size: u64, write: bool)
    requires Hi(addr) == 2 && Translate(m, addr, size, write).Some?
    ensures var s := Translate(m, addr, size, write).value;
            && s.region == Stack && s.start + size <= |m.stack|
            && ((forall a: int :: addr <= a < addr + size ==> ByteAt(m, a) == Some(m.stack[s.start + (a - addr)]))
                <==> Lo(addr) % 8192 + size <= 4096)
  {
    if Lo(addr) % 8192 + size <= 4096 {
      forall a: int | addr <= a < addr + size
        ensures ByteAt(m, a) == Some(m.stack[Translate(m, addr, size, write).value.start + (a - addr)])
      {
        BulkInside(m, addr, size, write, a);
      }
    } else {
      BulkCrosses(m, addr, size, write);
    }
  }

  lemma BulkInside(m: Mem, addr: u64, size: u64, write: bool, a: int)
    requires Hi(addr) == 2 && Translate(m, addr, size, write).Some? && Lo(addr) % 8192 + size <= 4096
    requires addr <= a < addr + size
    ensures var s := Translate(m, addr, size, write).value;
            s.start + size <= |m.stack| && ByteAt(m, a) == Some(m.stack[s.start + (a - addr)])
  {
    BulkAddress(addr, a - addr);
    BulkCell(Lo(addr), a - addr);
  }

  lemma BulkCrosses(m: Mem, addr: u64, size: u64, write: bool)
    requires Hi(addr) == 2 && Translate(m, addr, size, write).Some? && Lo(addr) % 8192 + size > 4096
    ensures exists a: int :: addr <= a < addr + size && ByteAt(m, a) == None
  {
    var i := 4096 - Lo(addr) % 8192;
    BulkAddress(addr, i);
    BulkCell(Lo(addr), i);
    assert ByteAt(m, addr + i) == None;
  }

  /** Such accesses are accepted: two bytes from the last address of the first frame are
      that byte and the first one of the next frame, 4 KB further on. */
  lemma BulkCrossing(m: Mem, write: bool)
    requires m.Valid()
    ensures Translate(m, 0x2_0000_0FFF, 2, write) == Some(Slice(Stack, 4095))
    ensures ByteAt(m, 0x2_0000_0FFF) == Some(m.stack[4095])
    ensures ByteAt(m, 0x2_0000_1000) == None && ByteAt(m, 0x2_0000_2000) == Some(m.stack[4096])
  {
    CrossingCells();
    StackAccess(m, 0xFFF, 2, write);
    StackByte(m, 0xFFF);
    StackByte(m, 0x1000);
    StackByte(m, 0x2000);
  }

  lemma CrossingCells()
    ensures Cell(0xFFF) == Some(4095) && Cell(0x1000) == None && Cell(0x2000) == Some(4096)
  {
  }

  lemma StackAccess(m: Mem, lo: nat, size: u64, write: bool)
    requires lo < 0x1_0000_0000 && size < 0x1_0000_0000
    requires Cell(lo).Some? && Cell(lo).value < |m.stack| && Cell(lo).value + size <= |m.stack|
    ensures Translate(m, 0x2_0000_0000 + lo, size, write) == Some(Slice(Stack, Cell(lo).value))
  {
    StackAddress(lo);
  }

  lemma StackByte(m: Mem, lo: nat)
    requires lo < 0x1_0000_0000
    ensures ByteAt(m, 0x2_0000_0000 + lo)
         == if Cell(lo).Some? && Cell(lo).value < |m.stack| then Some(m.stack[Cell(lo).value]) else None
  {
    StackAddress(lo);
  }

  lemma StackAddress(lo: nat)
    requires lo < 0x1_0000_0000
    ensures Hi(0x2_0000_0000 + lo) == 2 && Lo(0x2_0000_0000 + lo) == lo
  {
  }
}
