/** Whole runs of the interpreter: balanced calls, the place of the frames on the stack, and the meter. */
module Runs {
  import opened Options
  import opened Words
  import opened Regions
  import opened Arithmetic
  import opened Instructions
  import opened Verifier
  import opened Interpreter

  /** What has become of a run after n steps. */
  function Run<H>(e: Executable<H>, s: State<H>, n: nat): (o: Outcome<H>)
    requires Runnable(e) && Sane(e, s)
    ensures o.More? ==> Sane(e, o.state)
    ensures o.state.depth <= e.config.maxCallDepth
  {
    if n == 0 then More(s)
    else
      match Run(e, s, n - 1)
      case Halt(t, r) => Halt(t, r)
      case More(t) =>
        NextKeeps(e, t);
        Next(e, t)
  }

  // ---------------------------------------------------------------- the three kinds of steps

  function SavedFrame<H>(s: State<H>): Frame
    requires |s.reg| == 12 && s.reg[PC] < MAX
  {
    Frame(s.reg[6], s.reg[7], s.reg[8], s.reg[9], s.reg[FRAME_POINTER], s.reg[PC] + 1)
  }

  ghost predicate PlainStep<H>(e: Executable<H>, s: State<H>, t: State<H>) {
    && |s.reg| == |t.reg| == 12 && t.depth == s.depth && t.frames == s.frames
    && (ManualStackFrameBump(e.version) || t.reg[FRAME_POINTER] == s.reg[FRAME_POINTER])
  }

  ghost predicate CallStep<H>(e: Executable<H>, s: State<H>, t: State<H>) {
    && |s.reg| == |t.reg| == 12 && s.reg[PC] < MAX && s.depth < |s.frames|
    && t.depth == s.depth + 1 && t.frames == s.frames[s.depth := SavedFrame(s)]
    && (ManualStackFrameBump(e.version) || t.reg[FRAME_POINTER] == Trunc(W64, s.reg[FRAME_POINTER] + Stride(e)))
  }

  ghost predicate ReturnStep<H>(s: State<H>, t: State<H>) {
    && |s.reg| == |t.reg| == 12 && 0 < s.depth <= |s.frames| && t.depth == s.depth - 1 && t.frames == s.frames
    && t.reg[PC] == s.frames[t.depth].targetPc && t.reg[FRAME_POINTER] == s.frames[t.depth].framePointer
    && t.reg[6] == s.frames[t.depth].r6 && t.reg[7] == s.frames[t.depth].r7
    && t.reg[8] == s.frames[t.depth].r8 && t.reg[9] == s.frames[t.depth].r9
  }

  ghost predicate StepOf<H>(e: Executable<H>, s: State<H>, t: State<H>) {
    PlainStep(e, s, t) || CallStep(e, s, t) || ReturnStep(s, t)
  }

  lemma EnterShape<H>(e: Executable<H>, s: State<H>, target: int)
    requires Ready(e, s)
    ensures var o := Enter(e, s, target); o.More? ==> CallStep(e, s, o.state)
  {
  }

  lemma CallShape<H>(e: Executable<H>, s: State<H>, insn: Insn)
    requires Ready(e, s)
    ensures var o := Call(e, s, insn); o.More? ==> StepOf(e, s, o.state)
  {
    hide Enter;
    var t := s;
    var key := BuiltinKey(e, insn);
    if key.Some? {
      var (r, u) := Dispatch(e, s, key.value);
      if r.Ok? {
        t := u.(reg := u.reg[0 := r.value]);
      }
    }
    var target := CallTarget(e, insn, s.reg[PC]);
    if target.Some? {
      EnterShape(e, t, target.value);
    }
  }

  lemma PerformShape<H>(e: Executable<H>, s: State<H>, insn: Insn)
    requires Ready(e, s)
    requires Safe(e.program, e.version, insn, s.reg[PC]) || Decode(e.version, insn.opc) == Unknown
    ensures var o := Perform(e, s, insn); o.More? ==> StepOf(e, s, o.state)
  {
    hide Decode, Enter, Call, Compute, Holds, WideImmediate, Fetch, Operand, Narrow, Address;
    match Decode(e.version, insn.opc)
    case CallReg => EnterShape(e, s, Trunc(W64, s.reg[CallRegister(insn, e.version)] - e.vmAddr) / INSN_SIZE);
    case CallImm => CallShape(e, s, insn);
    case Exit => assert s.depth > 0 ==> ReturnStep(s, Leave(s).state);
    case _ => assert Perform(e, s, insn).More? ==> PlainStep(e, s, Perform(e, s, insn).state);
  }

  lemma NextShape<H>(e: Executable<H>, s: State<H>)
    requires Runnable(e) && Sane(e, s)
    ensures var o := Next(e, s); o.More? ==> StepOf(e, s, o.state)
  {
    hide Perform, Decode, Fetch, Safe, Accepted;
    if s.due < s.previous && s.reg[PC] * INSN_SIZE < |e.program| {
      LengthIsMultiple(e.program, e.version);
      AcceptedIsSafe(e.program, e.version, s.reg[PC]);
      PerformShape(e, s.(due := s.due + 1), Fetch(e.program, s.reg[PC]));
    }
  }

  // ---------------------------------------------------------------- balanced calls

  lemma StepOfRun<H>(e: Executable<H>, s: State<H>, n: nat)
    requires Runnable(e) && Sane(e, s) && Run(e, s, n + 1).More?
    ensures Run(e, s, n).More? && StepOf(e, Run(e, s, n).state, Run(e, s, n + 1).state)
  {
    hide Next, Runnable, Sane, StepOf;
    NextShape(e, Run(e, s, n).state);
  }

  /** A run that is still going on was going on before. */
  lemma {:induction false} StillRunning<H>(e: Executable<H>, s: State<H>, i: nat, j: nat)
    requires Runnable(e) && Sane(e, s) && i <= j && Run(e, s, j).More?
    ensures Run(e, s, i).More?
    decreases j
  {
    hide Next, Runnable, Sane;
    if i < j {
      StillRunning(e, s, i, j - 1);
    }
  }

  /** Between steps i and j the run stays deeper than `depth`. */
  ghost predicate Deeper<H>(e: Executable<H>, s: State<H>, depth: nat, i: nat, j: nat)
    requires Runnable(e) && Sane(e, s)
  {
    forall k: nat :: i < k < j ==> Run(e, s, k).state.depth > depth
  }

  /** While the run is deeper, the frame that was pushed stays as it is. */
  lemma {:induction false} FrameStays<H>(e: Executable<H>, s: State<H>, i: nat, j: nat)
    requires Runnable(e) && Sane(e, s) && i < j && Run(e, s, j).More?
    requires Run(e, s, i).More? && CallStep(e, Run(e, s, i).state, Run(e, s, i + 1).state)
    requires Deeper(e, s, Run(e, s, i).state.depth, i, j + 1)
    ensures var a, b := Run(e, s, i).state, Run(e, s, j).state;
      a.depth < |b.frames| && b.frames[a.depth] == SavedFrame(a)
    decreases j
  {
    hide Run, Runnable, Sane;
    if i + 1 < j {
      StillRunning(e, s, j - 1, j);
      FrameStays(e, s, i, j - 1);
      StepOfRun(e, s, j - 1);
    }
  }

  /**
   Calls are balanced: when the frame that a call pushes is first popped, the callee-saved registers, the frame
   pointer and the pc are what they were at the call, whatever happened at deeper levels.
   */
  lemma CallsAreBalanced<H>(e: Executable<H>, s: State<H>, i: nat, j: nat)
    requires Runnable(e) && Sane(e, s) && i + 1 < j && Run(e, s, j).More?
    requires Run(e, s, i + 1).state.depth == Run(e, s, i).state.depth + 1
    requires Run(e, s, j).state.depth == Run(e, s, i).state.depth && Deeper(e, s, Run(e, s, i).state.depth, i, j)
    ensures var a, b := Run(e, s, i).state, Run(e, s, j).state;
      && |a.reg| == |b.reg| == 12 && b.reg[6..10] == a.reg[6..10]
      && b.reg[FRAME_POINTER] == a.reg[FRAME_POINTER] && b.reg[PC] == a.reg[PC] + 1
  {
    hide Run, Runnable, Sane;
    StillRunning(e, s, i + 1, j);
    StillRunning(e, s, j - 1, j);
    StepOfRun(e, s, i);
    StepOfRun(e, s, j - 1);
    FrameStays(e, s, i, j - 1);
    var a, b := Run(e, s, i).state, Run(e, s, j).state;
    assert Run(e, s, j - 1).state.depth > a.depth;
    assert ReturnStep(Run(e, s, j - 1).state, b);
  }

  // ---------------------------------------------------------------- frames on the stack

  /** The guest address behind frame number `depth`. */
  function FrameEnd<H>(e: Executable<H>, depth: nat): nat {
    STACK_START + e.config.stackFrameSize + depth * Stride(e)
  }

  /** The stack fits into the address space. */
  ghost predicate StackFits<H>(e: Executable<H>) {
    FrameEnd(e, e.config.maxCallDepth) <= MAX
  }

  /** The frame pointer that belongs to a live frame. */
  function LivePointer<H>(s: State<H>, i: nat): u64
    requires i <= s.depth <= |s.frames| && |s.reg| == 12
  {
    if i < s.depth then s.frames[i].framePointer else s.reg[FRAME_POINTER]
  }

  ghost predicate FramePointers<H>(e: Executable<H>, s: State<H>) {
    && |s.reg| == 12 && s.depth <= |s.frames|
    && forall i: nat :: i <= s.depth ==> LivePointer(s, i) == FrameEnd(e, i)
  }

  lemma FrameEndGrows<H>(e: Executable<H>, i: nat, j: nat)
    requires i <= j
    ensures FrameEnd(e, i) <= FrameEnd(e, j) && FrameEnd(e, i + 1) == FrameEnd(e, i) + Stride(e)
  {
    Monotone(i, j, Stride(e));
  }

  lemma StepKeepsPointers<H>(e: Executable<H>, s: State<H>, t: State<H>)
    requires StepOf(e, s, t) && FramePointers(e, s) && !ManualStackFrameBump(e.version)
    requires StackFits(e) && t.depth <= e.config.maxCallDepth
    ensures FramePointers(e, t)
  {
    hide FrameEnd, Stride;
    assert LivePointer(s, s.depth) == FrameEnd(e, s.depth);
    FrameEndGrows(e, t.depth, e.config.maxCallDepth);
    FrameEndGrows(e, s.depth, s.depth);
    forall i: nat | i <= t.depth ensures LivePointer(t, i) == FrameEnd(e, i) {
      if i <= s.depth {
        assert LivePointer(s, i) == FrameEnd(e, i);
      }
    }
  }

  /** In every reachable state without manual stack bumps, every live frame pointer is where its depth says. */
  lemma {:induction false} RunKeepsPointers<H>(e: Executable<H>, s: State<H>, n: nat)
    requires Runnable(e) && Sane(e, s) && FramePointers(e, s) && !ManualStackFrameBump(e.version) && StackFits(e)
    requires Run(e, s, n).More?
    ensures FramePointers(e, Run(e, s, n).state)
  {
    hide Next, Runnable, Sane, StepOf, FramePointers, StackFits;
    if n > 0 {
      StillRunning(e, s, n - 1, n);
      RunKeepsPointers(e, s, n - 1);
      StepOfRun(e, s, n - 1);
      StepKeepsPointers(e, Run(e, s, n - 1).state, Run(e, s, n).state);
    }
  }

  /** The stack as a region: gaps of the size of a frame if the version and the configuration ask for them. */
  function StackRegion<H>(e: Executable<H>, hostAddr: u64): Region
    requires e.config.stackFrameSize <= StackSize(e) <= MAX
  {
    var gaps := StackFrameGaps(e.version) && e.config.enableStackFrameGaps;
    var gap := if gaps then e.config.stackFrameSize else 0;
    NewRegion(hostAddr, StackSize(e), STACK_START, gap, true)
  }

  /** With gaps a frame is a power of two. */
  ghost predicate FrameSizeFits<H>(e: Executable<H>, shift: nat) {
    StackFrameGaps(e.version) && e.config.enableStackFrameGaps ==>
      shift < NO_GAPS && e.config.stackFrameSize == Pow2(shift)
  }

  /** The size of the host's stack. */
  function StackSize<H>(e: Executable<H>): nat {
    e.config.stackFrameSize * e.config.maxCallDepth
  }

  /** Byte o of slice i. */
  function SliceByte(size: nat, i: nat, o: nat): nat {
    i * size + o
  }

  /** Byte o of frame i is byte o of slice i of the host's stack, gaps or not. */
  lemma FrameIsSlice<H>(e: Executable<H>, shift: nat, hostAddr: u64, access: AccessType, i: nat, o: nat)
    requires StackFits(e) && FrameSizeFits(e, shift) && i < e.config.maxCallDepth && o < e.config.stackFrameSize
    requires hostAddr + StackSize(e) <= MAX
    ensures e.config.stackFrameSize <= FrameEnd(e, i) && FrameEnd(e, i) - e.config.stackFrameSize + o <= MAX
    ensures e.config.stackFrameSize <= StackSize(e) && SliceByte(e.config.stackFrameSize, i, o) < StackSize(e)
    ensures VmToHost(StackRegion(e, hostAddr), access, FrameEnd(e, i) - e.config.stackFrameSize + o, 1)
         == Some(hostAddr + SliceByte(e.config.stackFrameSize, i, o))
  {
    hide VmToHost, GuestOffset, HighestBit, Pow2, StackRegion, FrameEnd, StackFits, FrameSizeFits, StackSize, SliceByte;
    FrameFits(e, i, o);
    SliceIsInside(e, shift, hostAddr, i, o);
    ByteIsReachedOnce(StackRegion(e, hostAddr), access, SliceByte(e.config.stackFrameSize, i, o),
                      FrameEnd(e, i) - e.config.stackFrameSize + o);
  }

  /** A byte of a frame lies in the address space, and its slice in the host's stack. */
  lemma FrameFits<H>(e: Executable<H>, i: nat, o: nat)
    requires StackFits(e) && i < e.config.maxCallDepth && o < e.config.stackFrameSize
    ensures e.config.stackFrameSize <= FrameEnd(e, i) && FrameEnd(e, i) - e.config.stackFrameSize + o <= MAX
    ensures e.config.stackFrameSize <= StackSize(e) <= MAX
    ensures SliceByte(e.config.stackFrameSize, i, o) < StackSize(e)
  {
    hide Stride;
    FrameEndGrows(e, i, e.config.maxCallDepth);
    SliceFits(e.config.stackFrameSize, e.config.maxCallDepth, i, o);
    SpanFits(e);
  }

  /** The stack region is well placed, and the guest address of a byte of slice i is that of a byte of frame i. */
  lemma SliceIsInside<H>(e: Executable<H>, shift: nat, hostAddr: u64, i: nat, o: nat)
    requires StackFits(e) && FrameSizeFits(e, shift) && i < e.config.maxCallDepth && o < e.config.stackFrameSize
    requires e.config.stackFrameSize <= StackSize(e) && hostAddr + StackSize(e) <= MAX
    ensures var r, h := StackRegion(e, hostAddr), SliceByte(e.config.stackFrameSize, i, o);
      && r.gapShift <= NO_GAPS && r.writable && r.hostAddr == hostAddr && r.len == StackSize(e)
      && r.vmAddr + Span(r) <= MAX && r.hostAddr + r.len <= MAX
      && FrameEnd(e, i) - e.config.stackFrameSize + o ==
           r.vmAddr + if r.gapShift == NO_GAPS then h else GuestOffset(h, r.gapShift)
  {
    hide GuestOffset, HighestBit, Pow2;
    SpanFits(e);
    if StackFrameGaps(e.version) && e.config.enableStackFrameGaps {
      GapShiftIsExponent(shift);
      GuestOfSlice(shift, i, o);
    }
  }

  lemma SliceFits(size: nat, depth: nat, i: nat, o: nat)
    requires i < depth && o < size
    ensures size <= size * depth && i * size + o < size * depth
  {
    Monotone(1, depth, size);
    Monotone(i + 1, depth, size);
    Monotone(i, depth, size);
  }

  lemma SpanFits<H>(e: Executable<H>)
    requires StackFits(e)
    ensures e.config.stackFrameSize * e.config.maxCallDepth <= e.config.maxCallDepth * Stride(e)
    ensures StackFrameGaps(e.version) && e.config.enableStackFrameGaps ==>
      2 * (e.config.stackFrameSize * e.config.maxCallDepth) == e.config.maxCallDepth * Stride(e)
  {
    Double(e.config.maxCallDepth, e.config.stackFrameSize);
  }

  lemma GuestOfSlice(shift: nat, i: nat, o: nat)
    requires o < Pow2(shift)
    ensures GuestOffset(i * Pow2(shift) + o, shift) == i * (2 * Pow2(shift)) + o
  {
    hide Pow2;
    DivModUnique(Pow2(shift), i, o);
  }

  /** Slices of different frames have no byte in common. */
  lemma SlicesAreDisjoint(size: nat, i: nat, o: nat, j: nat, p: nat)
    requires i < j && o < size && p < size
    ensures i * size + o < j * size + p
  {
    Monotone(i + 1, j, size);
    Monotone(i, j, size);
  }

  /**
   In every reachable state of a verified program without manual stack bumps, the bytes of every live frame are
   in the host's stack, in the slice with the frame's number, and in no other live frame.
   */
  lemma LiveFramesAreSlices<H>(e: Executable<H>, s: State<H>, n: nat, shift: nat, hostAddr: u64, access: AccessType,
                               i: nat, o: nat)
    requires Runnable(e) && Sane(e, s) && FramePointers(e, s) && !ManualStackFrameBump(e.version)
    requires StackFits(e) && FrameSizeFits(e, shift) && o < e.config.stackFrameSize
    requires hostAddr + StackSize(e) <= MAX
    requires Run(e, s, n).More? && i <= Run(e, s, n).state.depth
    ensures var t, size := Run(e, s, n).state, e.config.stackFrameSize;
      && |t.reg| == 12 && t.depth <= |t.frames| && size <= LivePointer(t, i)
      && size <= StackSize(e) && SliceByte(size, i, o) < StackSize(e)
      && VmToHost(StackRegion(e, hostAddr), access, LivePointer(t, i) - size + o, 1)
         == Some(hostAddr + SliceByte(size, i, o))
      && forall j: nat, p: nat {:trigger Apart(size, i, o, j, p)} :: j <= t.depth && j != i && p < size ==>
        Apart(size, i, o, j, p)
  {
    hide Run, VmToHost, StackRegion, Runnable;
    RunKeepsPointers(e, s, n);
    FrameIsSlice(e, shift, hostAddr, access, i, o);
    var t, size := Run(e, s, n).state, e.config.stackFrameSize;
    assert LivePointer(t, i) == FrameEnd(e, i);
    forall j: nat, p: nat | j <= t.depth && j != i && p < size ensures Apart(size, i, o, j, p) {
      if i < j {
        SlicesAreDisjoint(size, i, o, j, p);
      } else {
        SlicesAreDisjoint(size, j, p, i, o);
      }
    }
  }

  ghost predicate Apart(size: nat, i: nat, o: nat, j: nat, p: nat) {
    i * size + o != j * size + p
  }

  // ---------------------------------------------------------------- the meter

  /** Whether a step gets past the meter. */
  predicate Attempts<H>(s: State<H>) {
    s.due < s.previous
  }

  /** The built-in function that a step from `s` calls, if any. */
  function CalledBuiltin<H>(e: Executable<H>, s: State<H>): Option<nat>
    requires Runnable(e) && Sane(e, s)
  {
    if Attempts(s) && s.reg[PC] * INSN_SIZE < |e.program| then
      LengthIsMultiple(e.program, e.version);
      var insn := Fetch(e.program, s.reg[PC]);
      if Decode(e.version, insn.opc).CallImm? then BuiltinKey(e, insn) else None
    else None
  }

  /** What a step's built-in function takes from the budget that it is given. */
  function Consumed<H>(e: Executable<H>, s: State<H>): int
    requires Runnable(e) && Sane(e, s)
  {
    match CalledBuiltin(e, s)
    case None => 0
    case Some(key) =>
      var budget := SaturatingSub(s.remaining, s.due + 1);
      budget - e.call(key, s.host, s.reg[1..6], budget).2
  }

  /** How many instructions the first n steps attempt, and what their built-in functions take. */
  function Attempted<H>(e: Executable<H>, s: State<H>, n: nat): nat
    requires Runnable(e) && Sane(e, s)
  {
    if n == 0 then 0
    else
      var o := Run(e, s, n - 1);
      Attempted(e, s, n - 1) + (if o.More? && Attempts(o.state) then 1 else 0)
  }

  function ConsumedBy<H>(e: Executable<H>, s: State<H>, n: nat): int
    requires Runnable(e) && Sane(e, s)
  {
    if n == 0 then 0
    else
      var o := Run(e, s, n - 1);
      ConsumedBy(e, s, n - 1) + (if o.More? then Consumed(e, o.state) else 0)
  }

  /** The budget that is left after subtracting what is due. */
  function Left<H>(s: State<H>): int {
    s.remaining - s.due
  }

  lemma EnterKeepsMeter<H>(e: Executable<H>, s: State<H>, target: int)
    requires Ready(e, s)
    ensures Left(Enter(e, s, target).state) == Left(s)
  {
  }

  lemma CallMeter<H>(e: Executable<H>, s: State<H>, insn: Insn)
    requires Ready(e, s)
    ensures var key := BuiltinKey(e, insn);
      Left(Call(e, s, insn).state) == if key.None? then Left(s)
        else e.call(key.value, s.host, s.reg[1..6], SaturatingSub(s.remaining, s.due)).2
  {
    hide Enter;
    var t := s;
    var key := BuiltinKey(e, insn);
    if key.Some? {
      var (r, u) := Dispatch(e, s, key.value);
      if r.Ok? {
        t := u.(reg := u.reg[0 := r.value]);
      }
    }
    var target := CallTarget(e, insn, s.reg[PC]);
    if target.Some? {
      EnterKeepsMeter(e, t, target.value);
    }
  }

  lemma PerformMeter<H>(e: Executable<H>, s: State<H>, insn: Insn)
    requires Ready(e, s) && !Decode(e.version, insn.opc).CallImm?
    requires Safe(e.program, e.version, insn, s.reg[PC]) || Decode(e.version, insn.opc) == Unknown
    ensures Left(Perform(e, s, insn).state) == Left(s)
  {
    hide Decode, Enter, Compute, Holds, WideImmediate, Fetch, Operand, Narrow, Address;
    match Decode(e.version, insn.opc)
    case CallReg => EnterKeepsMeter(e, s, Trunc(W64, s.reg[CallRegister(insn, e.version)] - e.vmAddr) / INSN_SIZE);
    case _ =>
  }

  /** A step takes one from the budget, and what its built-in function consumes. */
  lemma NextMeter<H>(e: Executable<H>, s: State<H>)
    requires Runnable(e) && Sane(e, s)
    ensures Left(Next(e, s).state) == Left(s) - (if Attempts(s) then 1 else 0) - Consumed(e, s)
  {
    hide Perform, Call, Decode, Fetch, Safe, Accepted, BuiltinKey;
    if s.due < s.previous && s.reg[PC] * INSN_SIZE < |e.program| {
      LengthIsMultiple(e.program, e.version);
      AcceptedIsSafe(e.program, e.version, s.reg[PC]);
      var insn := Fetch(e.program, s.reg[PC]);
      var t := s.(due := s.due + 1);
      if Decode(e.version, insn.opc).CallImm? {
        CallMeter(e, t, insn);
        PerformCall(e, t, insn);
      } else {
        PerformMeter(e, t, insn);
      }
    }
  }

  lemma PerformCall<H>(e: Executable<H>, s: State<H>, insn: Insn)
    requires Ready(e, s) && Decode(e.version, insn.opc).CallImm? && Safe(e.program, e.version, insn, s.reg[PC])
    ensures Perform(e, s, insn) == Call(e, s, insn)
  {
    hide Decode, Safe, Call;
  }

  /** Conservation: at every point of every run, the budget is what was attempted, consumed, and is left. */
  lemma {:induction false} MeterIsConserved<H>(e: Executable<H>, s: State<H>, n: nat)
    requires Runnable(e) && Sane(e, s)
    ensures Left(s) == Attempted(e, s, n) + ConsumedBy(e, s, n) + Left(Run(e, s, n).state)
  {
    hide Next, Runnable, Sane, Attempts, Consumed, Left;
    if n > 0 {
      MeterIsConserved(e, s, n - 1);
      var o := Run(e, s, n - 1);
      if o.More? {
        NextMeter(e, o.state);
      }
    }
  }

  /** Built-in functions that never raise the budget. */
  ghost predicate NeverRaises<H(!new)>(e: Executable<H>) {
    forall key: nat, host: H, args: seq<u64>, budget: u64 :: e.call(key, host, args, budget).2 <= budget
  }

  /** Then every step that gets past the meter makes progress. */
  lemma NextProgresses<H(!new)>(e: Executable<H>, s: State<H>)
    requires Runnable(e) && Sane(e, s) && NeverRaises(e)
    ensures Consumed(e, s) >= 0 && (Next(e, s).More? ==> 0 <= Left(Next(e, s).state) < Left(s))
  {
    hide Accepted, Decode, Fetch, Perform, BuiltinKey, InProgram;
    NextMeter(e, s);
    NextKeeps(e, s);
  }

  /** No run of a verified program is longer than its budget. */
  lemma {:induction false} RunsAreBounded<H(!new)>(e: Executable<H>, s: State<H>, n: nat)
    requires Runnable(e) && Sane(e, s) && NeverRaises(e) && n > Left(s)
    ensures Run(e, s, n).Halt?
  {
    if Run(e, s, n).More? {
      LeftShrinks(e, s, n);
    }
  }

  lemma {:induction false} LeftShrinks<H(!new)>(e: Executable<H>, s: State<H>, n: nat)
    requires Runnable(e) && Sane(e, s) && NeverRaises(e) && Run(e, s, n).More?
    ensures 0 <= Left(Run(e, s, n).state) <= Left(s) - n
  {
    hide Next, Runnable, NeverRaises;
    if n > 0 {
      StillRunning(e, s, n - 1, n);
      LeftShrinks(e, s, n - 1);
      NextProgresses(e, Run(e, s, n - 1).state);
    }
  }
}
