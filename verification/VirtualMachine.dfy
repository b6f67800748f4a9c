/** The interpreter in place: registers, call frames and meter are updated step by step. */
module VirtualMachine {
  import opened Options
  import opened Words
  import opened Regions
  import opened Arithmetic
  import opened Instructions
  import opened Verifier
  import opened Interpreter
  import opened Runs

  class EbpfVm<H(!new)> {
    const e: Executable<H>
    const reg: array<u64>
    const callFrames: array<Frame>
    var callDepth: nat
    var due: u64
    var previous: u64
    var remaining: u64
    var host: H
    var result: Result<u64, Fault>

    ghost function View(): State<H>
      reads this, reg, callFrames
    {
      State(reg[..], callFrames[..], callDepth, due, previous, remaining, host)
    }

    /** Fresh registers: the frame pointer is set, everything else is zero. */
    constructor (e: Executable<H>, stackLen: u64, callFrames: array<Frame>, remaining: u64, host: H)
      ensures this.e == e && this.callFrames == callFrames && fresh(reg)
      ensures View() == Initial(e, stackLen, callFrames[..], remaining, host)
    {
      this.e, this.callFrames, this.remaining, this.host := e, callFrames, remaining, host;
      callDepth, due, previous, result := 0, 0, 0, Ok(0);
      reg := new u64[12](_ => 0);
      new;
      reg[FRAME_POINTER] := SaturatingAdd(STACK_START,
        if !ManualStackFrameBump(e.version) then Trunc(W64, e.config.stackFrameSize) else stackLen);
    }

    method PushFrame() returns (ok: bool)
      requires reg.Length == 12 && callDepth < callFrames.Length && reg[PC] < MAX
      modifies this, reg, callFrames
      ensures ok <==> old(callDepth) + 1 != e.config.maxCallDepth
      ensures View() == if ok then Bumped(e, Pushed(old(View()))) else Pushed(old(View()))
      ensures !ok ==> result == Err(CallDepthExceeded)
    {
      callFrames[callDepth] := Frame(reg[6], reg[7], reg[8], reg[9], reg[FRAME_POINTER], reg[PC] + 1);
      callDepth := callDepth + 1;
      if callDepth == e.config.maxCallDepth {
        result := Err(CallDepthExceeded);
        return false;
      }
      if !ManualStackFrameBump(e.version) {
        var frames := if StackFrameGaps(e.version) && e.config.enableStackFrameGaps then 2 else 1;
        reg[FRAME_POINTER] := Trunc(W64, reg[FRAME_POINTER] + e.config.stackFrameSize * frames);
      }
      ok := true;
    }

    method DispatchSyscall(key: nat)
      requires reg.Length == 12 && due <= previous
      modifies this
      ensures (result, View()) == Dispatch(e, old(View()), key)
    {
      due := previous - due;
      var used: u64 := previous - due;
      remaining := SaturatingSub(remaining, used);
      var (r, h, left) := e.call(key, host, reg[1..6], remaining);
      host, remaining, result := h, left, r;
      previous := remaining;
      due := 0;
    }

    /** The frame that the machine returns to, or the end of the run. */
    method ExitFrame() returns (more: bool)
      requires reg.Length == 12 && callDepth <= callFrames.Length
      modifies this, reg
      ensures Did(Leave(old(View())), more)
    {
      if callDepth == 0 {
        result := if due > previous then Err(ExceededMaxInstructions) else Ok(reg[0]);
        return false;
      }
      callDepth := callDepth - 1;
      var f := callFrames[callDepth];
      reg[FRAME_POINTER] := f.framePointer;
      reg[6], reg[7], reg[8], reg[9] := f.r6, f.r7, f.r8, f.r9;
      reg[PC] := f.targetPc;
      more := true;
    }

    method EnterFunction(target: int) returns (more: bool)
      requires Ready(e, View())
      modifies this, reg, callFrames
      ensures Did(Enter(e, old(View()), target), more)
    {
      more := PushFrame();
      if more {
        if InProgram(e.program, target) {
          reg[PC] := target;
        } else {
          result := Err(CallOutsideTextSegment);
          more := false;
        }
      }
    }

    method CallImmediate(insn: Insn) returns (more: bool)
      requires Ready(e, View())
      modifies this, reg, callFrames
      ensures Did(Call(e, old(View()), insn), more)
    {
      hide Enter;
      var resolved := false;
      var key := Trunc(W32, insn.imm);
      if (!StaticSyscalls(e.version) || insn.src == 0) && key in e.builtins {
        DispatchSyscall(key);
        if result.Err? {
          return false;
        }
        reg[0] := result.value;
        resolved := true;
      }
      if StaticSyscalls(e.version) {
        var target := reg[PC] + 1 + insn.imm;
        if InProgram(e.program, target) && insn.src == 1 {
          more := EnterFunction(target);
          return;
        }
      } else if key in e.functions {
        more := EnterFunction(e.functions[key]);
        return;
      }
      if !resolved {
        result := Err(UnsupportedInstruction);
        return false;
      }
      reg[PC] := reg[PC] + 1;
      more := true;
    }

    /** The machine is in the state that the outcome describes. */
    ghost predicate Did(o: Outcome<H>, more: bool)
      reads this, reg, callFrames
    {
      View() == o.state && more == o.More? && (o.Halt? ==> result == o.result)
    }

    /** One step: every index and every division in it is in range because the program passed the verifier. */
    method Step() returns (more: bool)
      requires Runnable(e) && Sane(e, View())
      modifies this, reg, callFrames
      ensures Did(Next(e, old(View())), more)
    {
      hide Perform, Decode, Fetch, Safe, Accepted, Count;
      if due >= previous {
        result := Err(ExceededMaxInstructions);
        return false;
      }
      due := due + 1;
      var pc := reg[PC];
      if pc * INSN_SIZE >= |e.program| {
        result := Err(ExecutionOverrun);
        return false;
      }
      LengthIsMultiple(e.program, e.version);
      var insn := Fetch(e.program, pc);
      AcceptedIsSafe(e.program, e.version, pc);
      more := PerformInstruction(insn);
    }

    method PerformInstruction(insn: Insn) returns (more: bool)
      requires Ready(e, View()) && (Safe(e.program, e.version, insn, reg[PC]) || Decode(e.version, insn.opc) == Unknown)
      modifies this, reg, callFrames
      ensures Did(Perform(e, old(View()), insn), more)
    {
      hide Decode, Enter, Call, Leave, Compute, Holds, WideImmediate, Fetch, Narrow, Address, Trunc, Count;
      var op := Decode(e.version, insn.opc);
      var nextPc := reg[PC] + 1;
      match op {
        case Unknown =>
          result := Err(UnsupportedInstruction);
          return false;
        case Lddw =>
          reg[insn.dst] := WideImmediate(e.program, reg[PC]);
          nextPc := nextPc + 1;
        case Load(size) =>
          var (r, h) := e.load(host, Address(reg[insn.src], insn.off), size);
          host := h;
          if r.Err? {
            result := r;
            return false;
          }
          reg[insn.dst] := r.value;
        case Store(size, source) =>
          var value := Narrow(size, Operand(source, insn.imm, reg[insn.src]));
          var (r, h) := e.store(host, value, Address(reg[insn.dst], insn.off), size);
          host := h;
          if r.Err? {
            result := r;
            return false;
          }
        case Jump(condition, w, source) =>
          if Holds(condition, w, reg[insn.dst], Operand(source, insn.imm, reg[insn.src])) {
            nextPc := nextPc + insn.off;
          }
        case CallReg =>
          more := EnterFunction(Trunc(W64, reg[CallRegister(insn, e.version)] - e.vmAddr) / INSN_SIZE);
          return;
        case CallImm =>
          more := CallImmediate(insn);
          return;
        case Exit =>
          more := ExitFrame();
          return;
        case _ =>
          var r := Compute(e.version, op, insn.imm, reg[insn.dst], Operand(SourceOfOp(op), insn.imm, reg[insn.src]));
          if r.Err? {
            result := r;
            return false;
          }
          reg[insn.dst] := r.value;
      }
      reg[PC] := nextPc;
      more := true;
    }

    /**
     Runs the program to its end, which it reaches because no step raises the budget, and settles the meter:
     the returned count is what was attempted plus what built-in functions consumed.
     */
    method ExecuteProgram(entry: u64) returns (count: u64, r: Result<u64, Fault>, ghost n: nat)
      requires Runnable(e) && NeverRaises(e) && Sane(e, Started(View(), entry))
      modifies this, reg, callFrames
      ensures var start := Started(old(View()), entry); var o := Run(e, start, n);
        && o == Halt(o.state, r)
        && count == Attempted(e, start, n) + ConsumedBy(e, start, n)
        && remaining == old(remaining) - count
    {
      hide Runnable, NeverRaises, Next, Run, Attempted, ConsumedBy, Sane;
      StartedSize(e, View(), entry);
      reg[PC] := entry;
      ghost var start := Started(old(View()), entry);
      var initial := remaining;
      previous := initial;
      due := 0;
      result := Ok(0);
      assert View().reg == start.reg;
      RunStarts(e, start);
      n := 0;
      var more := true;
      while more
        invariant Runnable(e) && NeverRaises(e) && Sane(e, start) && Did(Run(e, start, n), more)
        decreases if more then 1 + Left(View()) else 0
      {
        RunSteps(e, start, n);
        more := Step();
        n := n + 1;
      }
      MeterIsConserved(e, start, n);
      RunLeaves(e, start, n);
      remaining := SaturatingSub(remaining, due);
      count := SaturatingSub(initial, remaining);
      r := result;
    }
  }

  /** The state of a new machine. */
  function Initial<H>(e: Executable<H>, stackLen: u64, frames: seq<Frame>, remaining: u64, host: H): State<H> {
    var size := if !ManualStackFrameBump(e.version) then Trunc(W64, e.config.stackFrameSize) else stackLen;
    var top := SaturatingAdd(STACK_START, size);
    State(seq<u64>(12, _ => 0)[FRAME_POINTER := top], frames, 0, 0, 0, remaining, host)
  }

  /** The state in which a run from `entry` begins. */
  function Started<H>(s: State<H>, entry: u64): State<H> {
    if |s.reg| != 12 then s else s.(reg := s.reg[PC := entry], due := 0, previous := s.remaining)
  }

  lemma StartedSize<H>(e: Executable<H>, s: State<H>, entry: u64)
    requires Sane(e, Started(s, entry))
    ensures |s.reg| == 12
  {
  }

  lemma RunStarts<H>(e: Executable<H>, s: State<H>)
    requires Runnable(e) && Sane(e, s)
    ensures Run(e, s, 0) == More(s)
  {
  }

  lemma RunSteps<H(!new)>(e: Executable<H>, s: State<H>, n: nat)
    requires Runnable(e) && Sane(e, s) && NeverRaises(e) && Run(e, s, n).More?
    ensures var t := Run(e, s, n).state;
      && Sane(e, t) && Run(e, s, n + 1) == Next(e, t)
      && (Next(e, t).More? ==> 0 <= Left(Next(e, t).state) < Left(t)) && Left(t) >= 0
  {
    hide Next, Runnable, NeverRaises;
    NextProgresses(e, Run(e, s, n).state);
  }

  lemma {:induction false} RunLeaves<H(!new)>(e: Executable<H>, s: State<H>, n: nat)
    requires Runnable(e) && Sane(e, s) && NeverRaises(e)
    ensures var t := Run(e, s, n).state; t.due <= t.remaining && ConsumedBy(e, s, n) >= 0
  {
    hide Next, Runnable, NeverRaises;
    if n > 0 {
      RunLeaves(e, s, n - 1);
      var o := Run(e, s, n - 1);
      if o.More? {
        NextProgresses(e, o.state);
        NextKeeps(e, o.state);
      }
    }
  }

  /** A new machine can begin a run, with its frame pointer at the end of frame zero or, unless fixed, of the stack. */
  lemma InitialIsSane<H>(e: Executable<H>, stackLen: u64, frames: seq<Frame>, remaining: u64, host: H, entry: u64)
    requires Runnable(e) && e.config.maxCallDepth <= |frames| && entry * INSN_SIZE <= MAX
    ensures var s := Started(Initial(e, stackLen, frames, remaining, host), entry);
      && Sane(e, s) && s.depth == 0 && s.previous == remaining && s.frames == frames && s.host == host
      && s.reg[PC] == entry && (forall r :: 0 <= r < 10 ==> s.reg[r] == 0)
      && (var top := 0x2_0000_0000 + if e.version == V1 || e.version == V2 then stackLen else e.config.stackFrameSize;
          s.reg[FRAME_POINTER] == if top <= MAX then top else MAX)
      && (StackFits(e) && !ManualStackFrameBump(e.version) ==> FramePointers(e, s))
  {
    hide Accepted;
    if StackFits(e) {
      FrameEndGrows(e, 0, e.config.maxCallDepth);
    }
  }
}
