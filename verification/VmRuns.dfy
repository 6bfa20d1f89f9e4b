/** Properties of whole runs of the sBPF interpreter. A run is the sequence of
    states it passes through, any program and any start. */
module VmRuns {
  import opened Bytes
  import opened VmMemory
  import opened VmIsa
  import opened Vm

  ghost predicate IsRun(p: Prog, t: seq<State>) {
    forall i :: 0 < i < |t| ==> Leads(p, t, i)
  }

  /** State i of the run is one step from the one before it. */
  ghost predicate Leads(p: Prog, t: seq<State>, i: nat)
    requires 0 < i < |t|
  {
    Step(p, t[i - 1]) == Next(t[i])
  }

  lemma RunPrefix(p: Prog, t: seq<State>)
    requires IsRun(p, t) && t != []
    ensures IsRun(p, t[..|t| - 1])
  {
    var init := t[..|t| - 1];
    forall i | 0 < i < |init| ensures Leads(p, init, i) { assert Leads(p, t, i); }
  }

  lemma RunCons(p: Prog, s: State, t: seq<State>)
    requires IsRun(p, t) && t != [] && Step(p, s) == Next(t[0])
    ensures IsRun(p, [s] + t)
  {
    var more := [s] + t;
    forall i | 0 < i < |more| ensures Leads(p, more, i) {
      if i > 1 { assert Leads(p, t, i - 1); }
    }
  }

  function InsAt(p: Prog, s: State): Ins
    requires 0 <= s.pc < |p.text|
  {
    Decode(p.text[s.pc])
  }

  function Paid(p: Prog, s: State): State
    requires 0 <= s.pc < |p.text| && Cost(InsAt(p, s).op) <= s.remaining
  {
    s.(remaining := s.remaining - Cost(InsAt(p, s).op))
  }

  predicate Decodable(p: Prog, s: State) {
    0 <= s.pc < |p.text| && InsAt(p, s).dst <= 10 && InsAt(p, s).src <= 10
  }

  lemma Fetched(p: Prog, s: State)
    requires Step(p, s).Next?
    ensures 0 <= s.pc < |p.text| && Cost(InsAt(p, s).op) <= s.remaining
    ensures InsAt(p, s).dst <= 10 && InsAt(p, s).src <= 10 && Step(p, s) == Execute(p, InsAt(p, s), Paid(p, s))
  {
  }

  // ------------------------------------------------------------- call and return

  /** A call to code of the program: the step that puts a frame on the stack. */
  ghost predicate Calls(s: State, s': State) {
    s'.frames == s.frames + [Frame(s.regs[10], s.regs[6..10], s.pc + 1)]
  }

  ghost predicate Returns(s: State, s': State) {
    && s.frames != []
    && s'.frames == s.frames[..|s.frames| - 1]
    && var f := s.frames[|s.frames| - 1];
       s'.pc == f.ret && s'.regs[6..10] == f.saved && s'.regs[10] == f.ptr
  }

  lemma RestoredRegs(r: Regs, f: Frame)
    ensures Restored(r, f)[6..10] == f.saved && Restored(r, f)[10] == f.ptr && Restored(r, f)[..6] == r[..6]
  {
  }

  lemma PushPop(p: Prog, i: Ins, s: State, s': State)
    requires 0 <= s.pc < |p.text| && i.dst <= 10 && i.src <= 10 && Execute(p, i, s) == Next(s')
    ensures s'.frames == s.frames || Calls(s, s') || Returns(s, s')
    ensures |s.frames| <= STACK_DEPTH ==> |s'.frames| <= STACK_DEPTH
  {
    if i.op == EXIT && s.frames != [] { RestoredRegs(s.regs, s.frames[|s.frames| - 1]); }
  }

  lemma FramesStep(p: Prog, s: State, s': State)
    requires Step(p, s) == Next(s')
    ensures s'.frames == s.frames || Calls(s, s') || Returns(s, s')
    ensures |s.frames| <= STACK_DEPTH ==> |s'.frames| <= STACK_DEPTH
  {
    Fetched(p, s);
    PushPop(p, InsAt(p, s), Paid(p, s), s');
  }

  /** No run ever has more than 64 frames. */
  lemma {:induction false} DepthBound(p: Prog, t: seq<State>, i: nat)
    requires IsRun(p, t) && i < |t| && |t[0].frames| <= STACK_DEPTH
    ensures |t[i].frames| <= STACK_DEPTH
  {
    if i > 0 {
      DepthBound(p, t, i - 1);
      assert Leads(p, t, i);
      FramesStep(p, t[i - 1], t[i]);
    }
  }

  ghost predicate OneFrameApart(f: seq<Frame>, f': seq<Frame>) {
    f' == f || (|f'| == |f| + 1 && f'[..|f|] == f) || (f != [] && f' == f[..|f| - 1])
  }

  lemma DepthStep(p: Prog, s: State, s': State)
    requires Step(p, s) == Next(s')
    ensures OneFrameApart(s.frames, s'.frames)
  {
    FramesStep(p, s, s');
  }

  lemma PrefixKept(base: seq<Frame>, f: seq<Frame>, f': seq<Frame>)
    requires base != [] && base <= f && OneFrameApart(f, f') && |f'| != |base| - 1
    ensures base <= f'
  {
  }

  /** The frame stacks a run passes through. */
  ghost predicate IsFrameRun(fr: seq<seq<Frame>>) {
    forall n :: 0 < n < |fr| ==> OneFrameApart(fr[n - 1], fr[n])
  }

  ghost function FrameRun(p: Prog, t: seq<State>): (fr: seq<seq<Frame>>)
    requires IsRun(p, t)
    ensures |fr| == |t| && IsFrameRun(fr) && forall n :: 0 <= n < |t| ==> fr[n] == t[n].frames
  {
    RunFrames(p, t);
    Frames(t)
  }

  ghost function Frames(t: seq<State>): (fr: seq<seq<Frame>>)
    ensures |fr| == |t| && forall n :: 0 <= n < |t| ==> fr[n] == t[n].frames
  {
    seq(|t|, n requires 0 <= n < |t| => t[n].frames)
  }

  lemma RunFrames(p: Prog, t: seq<State>)
    requires IsRun(p, t)
    ensures IsFrameRun(Frames(t))
  {
    var fr := Frames(t);
    forall n | 0 < n < |fr| ensures OneFrameApart(fr[n - 1], fr[n]) {
      assert Leads(p, t, n);
      DepthStep(p, t[n - 1], t[n]);
    }
  }

  /** While the depth stays above that of the call, the caller's frames and the
      saved one stay where they are. */
  lemma {:induction false} FramesKept(fr: seq<seq<Frame>>, i: nat, m: nat)
    requires IsFrameRun(fr) && i < m < |fr| && fr[i] < fr[i + 1] && |fr[i + 1]| == |fr[i]| + 1
    requires forall n :: i < n <= m ==> |fr[n]| != |fr[i]|
    ensures fr[i + 1] <= fr[m]
    decreases m
  {
    if m > i + 1 {
      FramesKept(fr, i, m - 1);
      PrefixKept(fr[i + 1], fr[m - 1], fr[m]);
    }
  }

  lemma CallKept(p: Prog, t: seq<State>, i: nat, m: nat)
    requires IsRun(p, t) && i < m < |t| && Calls(t[i], t[i + 1])
    requires forall n :: i < n <= m ==> |t[n].frames| != |t[i].frames|
    ensures t[i + 1].frames <= t[m].frames
  {
    var fr := FrameRun(p, t);
    assert fr[i] == t[i].frames && fr[i + 1] == t[i + 1].frames && fr[m] == t[m].frames;
    FramesKept(fr, i, m);
  }

  /** Call bracketing, for any program and run: when a call is made at pc c and
      depth k, the first later instruction at depth k is the one at c + 1, with R6
      to R9 and R10 as they were at the call, whatever was executed in between. */
  lemma CallBracketing(p: Prog, t: seq<State>, i: nat, j: nat)
    requires IsRun(p, t) && i < j < |t| && Calls(t[i], t[i + 1])
    requires |t[j].frames| == |t[i].frames|
    requires forall m :: i < m < j ==> |t[m].frames| != |t[i].frames|
    ensures t[j].pc == t[i].pc + 1
    ensures t[j].regs[6..10] == t[i].regs[6..10] && t[j].regs[10] == t[i].regs[10]
    ensures t[j].frames == t[i].frames
  {
    CallKept(p, t, i, j - 1);
    BackAt(p, t, i, j);
  }

  lemma BackAt(p: Prog, t: seq<State>, i: nat, j: nat)
    requires IsRun(p, t) && i < j < |t| && Calls(t[i], t[i + 1]) && t[i + 1].frames <= t[j - 1].frames
    requires |t[j].frames| == |t[i].frames|
    ensures t[j].pc == t[i].pc + 1
    ensures t[j].regs[6..10] == t[i].regs[6..10] && t[j].regs[10] == t[i].regs[10]
    ensures t[j].frames == t[i].frames
  {
    assert Leads(p, t, j);
    ReturnRestores(p, t[i], t[i + 1], t[j - 1], t[j]);
  }

  lemma ReturnRestores(p: Prog, s: State, s': State, u: State, u': State)
    requires Calls(s, s') && s'.frames <= u.frames && |u'.frames| == |s.frames| && Step(p, u) == Next(u')
    ensures u'.pc == s.pc + 1 && u'.regs[6..10] == s.regs[6..10] && u'.regs[10] == s.regs[10]
    ensures u'.frames == s.frames
  {
    FramesStep(p, u, u');
    DepthStep(p, u, u');
    assert |s'.frames| == |s.frames| + 1;
    assert u.frames == s'.frames;
  }

  /** The depth changes by at most one a step, so a run that gets back to the
      call's depth or below it has such a first instruction. */
  lemma ReturnExists(p: Prog, t: seq<State>, i: nat, m: nat) returns (j: nat)
    requires IsRun(p, t) && i < m < |t| && Calls(t[i], t[i + 1]) && |t[m].frames| <= |t[i].frames|
    ensures i < j <= m && |t[j].frames| == |t[i].frames|
    ensures forall n :: i < n < j ==> |t[n].frames| != |t[i].frames|
  {
    j := FirstAtDepth(FrameRun(p, t), i, m);
  }

  lemma FirstAtDepth(fr: seq<seq<Frame>>, i: nat, m: nat) returns (j: nat)
    requires IsFrameRun(fr) && i < m < |fr| && |fr[i + 1]| > |fr[i]| && |fr[m]| <= |fr[i]|
    ensures i < j <= m && |fr[j]| == |fr[i]| && forall n :: i < n < j ==> |fr[n]| != |fr[i]|
  {
    j := i + 1;
    while |fr[j]| != |fr[i]|
      invariant i < j <= m && |fr[j]| >= |fr[i]|
      invariant forall n :: i < n < j ==> |fr[n]| != |fr[i]|
      decreases m - j
    {
      j := j + 1;
      assert OneFrameApart(fr[j - 1], fr[j]);
    }
  }

  // ---------------------------------------------------------------- the meter

  function TotalCost(p: Prog, t: seq<State>): nat {
    if |t| <= 1 then 0 else
    var s := t[|t| - 2];
    TotalCost(p, t[..|t| - 1]) + if 0 <= s.pc < |p.text| then Cost(InsAt(p, s).op) else 0
  }

  /** What system calls charged along a run. */
  function TotalCharge(p: Prog, t: seq<State>): nat {
    if |t| <= 1 then 0 else
    TotalCharge(p, t[..|t| - 1]) + StepCharge(p, t[|t| - 2])
  }

  function StepCharge(p: Prog, s: State): nat {
    if 0 <= s.pc < |p.text| && Cost(InsAt(p, s).op) <= s.remaining && Decodable(p, s)
    then HostCharge(p, InsAt(p, s), Paid(p, s)) else 0
  }

  lemma LastStep(p: Prog, t: seq<State>)
    requires IsRun(p, t) && |t| > 1
    ensures var s, s' := t[|t| - 2], t[|t| - 1];
            && 0 <= s.pc < |p.text|
            && s'.remaining == s.remaining - Cost(InsAt(p, s).op) - StepCharge(p, s)
            && TotalCost(p, t) == TotalCost(p, t[..|t| - 1]) + Cost(InsAt(p, s).op)
  {
    assert Leads(p, t, |t| - 1);
    StepCosts(p, t[|t| - 2], t[|t| - 1]);
  }

  lemma StepCosts(p: Prog, s: State, s': State)
    requires Step(p, s) == Next(s')
    ensures 0 <= s.pc < |p.text| && s'.remaining == s.remaining - Cost(InsAt(p, s).op) - StepCharge(p, s)
  {
    Fetched(p, s);
    StepPays(p, s);
  }

  /** What a run has taken from the meter is the summed cost of what it executed and
      what system calls charged, and it cannot be longer than that cost. */
  lemma {:induction false} Metering(p: Prog, t: seq<State>)
    requires IsRun(p, t) && t != []
    ensures t[0].remaining - t[|t| - 1].remaining == TotalCost(p, t) + TotalCharge(p, t)
    ensures |t| - 1 <= TotalCost(p, t)
    decreases |t|
  {
    if |t| > 1 {
      var init := t[..|t| - 1];
      RunPrefix(p, t);
      assert init[|init| - 1] == t[|t| - 2];
      Metering(p, init);
      LastStep(p, t);
    }
  }

  /** The last instruction is paid for too: unless a run ends for want of units (and
      then the meter reads zero) or past the text, its cost and what it let the host
      charge have also been taken. */
  lemma FinalCharge(p: Prog, s: State)
    requires !Step(p, s).Next?
    ensures var o := Step(p, s);
            if o == Fail(PcOutOfBounds, s) then true
            else if o == Fail(ComputeExceeded, s.(remaining := 0))
              then 0 <= s.pc < |p.text| && s.remaining < Cost(InsAt(p, s).op)
            else 0 <= s.pc < |p.text| && o.s.remaining == s.remaining - Cost(InsAt(p, s).op) - StepCharge(p, s)
  {
    if 0 <= s.pc < |p.text| {
      var i := InsAt(p, s);
      if s.remaining >= Cost(i.op) && i.dst <= 10 && i.src <= 10 { ExecuteCharges(p, i, Paid(p, s)); }
    }
  }

  lemma StepLowers(p: Prog, s: State)
    requires Step(p, s).Next?
    ensures Step(p, s).s.remaining < s.remaining
  {
    StepPays(p, s);
  }

  lemma NeverRefunds(p: Prog, s: State)
    ensures Step(p, s).s.remaining <= s.remaining
  {
    if Step(p, s).Next? { StepLowers(p, s); } else { FinalCharge(p, s); }
  }

  lemma RunGoesOn(p: Prog, s: State, o: Outcome)
    requires o == Step(p, s)
    ensures Run(p, s) == if o.Next? then Run(p, o.s) else o
  {
  }

  /** The interpreter's result is reached by a run in this sense. */
  lemma {:induction false} RunHasTrace(p: Prog, s: State) returns (t: seq<State>)
    ensures IsRun(p, t) && t != [] && t[0] == s && Run(p, s) == Step(p, t[|t| - 1])
    decreases s.remaining
  {
    var o := Step(p, s);
    RunGoesOn(p, s, o);
    if o.Next? {
      StepLowers(p, s);
      var rest := RunHasTrace(p, o.s);
      RunCons(p, s, rest);
      t := [s] + rest;
    } else {
      t := [s];
    }
  }

  // --------------------------------------------------------------- the memory

  /** Neither instructions nor system calls change the program and input regions,
      resize the stack or push the heap over its limit. */
  ghost predicate Keeps(m: Mem, m': Mem) {
    m'.ro == m.ro && m'.input == m.input && (m.Valid() ==> m'.Valid())
  }

  lemma {:induction false} InvokeKeeps(sys: Syscall, args: seq<u64>, x: Inside, answers: seq<Option<seq<byte>>>,
      left: nat)
    ensures Keeps(x.mem, Invoke(sys, args, x, answers, left).0.mem)
    decreases left
  {
    if left > 0 {
      var (q, host) := sys.next(x.host, args, answers);
      if !q.Return? && !q.Abort? {
        var (z, a) := Serve(x.(host := host), q);
        InvokeKeeps(sys, args, z, answers + [a], left - 1);
      }
    }
  }

  lemma ExecuteKeeps(p: Prog, i: Ins, s: State)
    requires 0 <= s.pc < |p.text| && i.dst <= 10 && i.src <= 10
    ensures Keeps(s.mem, Execute(p, i, s).s.mem)
  {
    if i.op == CALL {
      var sys := p.syscalls(Unsigned32(i.imm));
      if sys.Some? { InvokeKeeps(sys.value, s.regs[1..6], Inside(s.mem, s.host, s.remaining), [], sys.value.limit); }
    }
  }

  lemma StepKeeps(p: Prog, s: State)
    ensures Keeps(s.mem, Step(p, s).s.mem)
  {
    if 0 <= s.pc < |p.text| {
      var i := InsAt(p, s);
      if Cost(i.op) <= s.remaining && i.dst <= 10 && i.src <= 10 { ExecuteKeeps(p, i, Paid(p, s)); }
    }
  }

  lemma {:induction false} RegionsKept(p: Prog, s: State)
    ensures Keeps(s.mem, Run(p, s).s.mem)
    decreases s.remaining
  {
    StepKeeps(p, s);
    if Step(p, s).Next? {
      StepPays(p, s);
      RegionsKept(p, Step(p, s).s);
    }
  }
}
