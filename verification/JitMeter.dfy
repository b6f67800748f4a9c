/**
 The instruction meter of the just-in-time compiler. The interpreter counts and checks every
 instruction. The compiled code keeps one register with the largest program counter that the
 remaining budget allows for, adjusts it at branches only, and validates it at branches, at
 regular checkpoints and before it reports an error. What the instructions do to the guest's data
 is left abstract.
 */
module JitMeter {
  import opened Options
  import opened Words
  import opened Arithmetic

  // ---------------------------------------------------------------- guest programs

  /** What an instruction does to the control flow. `Half` is the second slot of a wide load. */
  datatype Insn = Plain | Wide | Half | Jump(target: nat) | Branch(target: nat)
    | CallTo(target: nat) | CallRegister | Syscall | SyscallAndCall(target: nat) | Unresolved | Exit

  /**
   `Raised` is an error that the code of an instruction raises by itself, `Fault` and `SyscallError` are
   reported by the memory and by system calls.
   */
  datatype Verdict = Success | ExceededMaxInstructions | ExecutionOverrun | CallDepthExceeded
    | CallOutsideTextSegment | UnsupportedInstruction | Raised(code: nat) | Fault(code: nat) | SyscallError(code: nat)

  /** An error of an instruction, whether its own code raises it, and the data it leaves behind. */
  datatype Failure<+D> = Failure(code: nat, own: bool, data: D)

  function VerdictOf<D>(f: Failure<D>): Verdict {
    if f.own then Raised(f.code) else Fault(f.code)
  }

  /**
   The effect of the instructions on the guest's data `D`. `save`, `enter` and `restore` handle the
   registers that a call keeps in a frame of type `F`. A system call gets the remaining budget
   and returns the new one. `raise` is what compiled code does to the data when it sets the kind of an error.
   */
  datatype Guest<!D, !F> = Guest(
    exec: (nat, D) -> Result<D, Failure<D>>, wide: (nat, D) -> D, taken: (nat, D) -> bool, callee: (nat, D) -> nat,
    save: D -> F, enter: D -> D, restore: (D, F) -> D, syscall: (nat, D, nat) -> (Result<D, Failure<D>>, nat),
    raise: D -> D)

  /** A system call never raises the budget, and the register named by an indirect call is not the frame pointer. */
  ghost predicate Sane<D(!new), F>(m: Guest<D, F>) {
    && (forall pc: nat, d: D, left: nat :: m.syscall(pc, d, left).1 <= left)
    && (forall pc: nat, d: D :: m.callee(pc, m.enter(d)) == m.callee(pc, d))
  }

  /** What the verifier guarantees of the control flow. */
  ghost predicate WellFormed(p: seq<Insn>) {
    && (forall pc :: 0 <= pc < |p| && p[pc].Wide? ==> pc + 1 < |p| && p[pc + 1].Half?)
    && (forall pc :: 0 <= pc < |p| && p[pc].Half? ==> pc > 0 && p[pc - 1].Wide?)
    && (forall pc :: 0 <= pc < |p| && (p[pc].Jump? || p[pc].Branch?) ==> p[pc].target < |p| && !p[p[pc].target].Half?)
    && (forall pc :: 0 <= pc < |p| && (p[pc].CallTo? || p[pc].SyscallAndCall?) ==> p[pc].target < |p|)
  }

  /** A running machine, or how it stopped: verdict, outstanding count, last settled budget, data. */
  datatype Run<+S, +D> = Going(state: S) | Done(verdict: Verdict, due: nat, previous: nat, data: D)

  // ---------------------------------------------------------------- the interpreter

  datatype Frame<+F> = Frame(target: nat, saved: F)

  datatype Interp<+D, +F> = Interp(pc: nat, due: nat, previous: nat, frames: seq<Frame<F>>, data: D)

  function Interpret<D, F>(p: seq<Insn>, m: Guest<D, F>, maxDepth: nat, s: Interp<D, F>): Run<Interp<D, F>, D> {
    if s.due >= s.previous then Done(ExceededMaxInstructions, s.due, s.previous, s.data)
    else
      var t := s.(due := s.due + 1);
      if s.pc >= |p| then Stop(ExecutionOverrun, t)
      else
        match p[s.pc]
        case Plain =>
          (match m.exec(s.pc, s.data)
           case Ok(d) => Going(t.(pc := s.pc + 1, data := d))
           case Err(f) => Stop(VerdictOf(f), t.(data := f.data)))
        case Wide => Going(t.(pc := s.pc + 2, data := m.wide(s.pc, s.data)))
        case Half => Stop(UnsupportedInstruction, t)
        case Jump(target) => Going(t.(pc := target))
        case Branch(target) => Going(t.(pc := if m.taken(s.pc, s.data) then target else s.pc + 1))
        case CallTo(target) => Enter(m, maxDepth, t, target)
        case CallRegister =>
          var target := m.callee(s.pc, s.data);
          if |s.frames| + 1 == maxDepth then Stop(CallDepthExceeded, t)
          else if target < |p| then Going(PushFrame(m, t, target))
          else Stop(CallOutsideTextSegment, PushFrame(m, t, s.pc))
        case Syscall =>
          var (result, left) := m.syscall(s.pc, s.data, t.previous - t.due);
          (match result
           case Ok(d) => Going(t.(pc := s.pc + 1, due := 0, previous := left, data := d))
           case Err(f) => Stop(SyscallError(f.code), t.(due := 0, previous := left, data := f.data)))
        case SyscallAndCall(target) =>
          var (result, left) := m.syscall(s.pc, s.data, t.previous - t.due);
          (match result
           case Ok(d) => Enter(m, maxDepth, t.(due := 0, previous := left, data := d), target)
           case Err(f) => Stop(SyscallError(f.code), t.(due := 0, previous := left, data := f.data)))
        case Unresolved => Stop(UnsupportedInstruction, t)
        case Exit =>
          if s.frames == [] then Stop(Success, t)
          else
            var frame := s.frames[|s.frames| - 1];
            Going(t.(pc := frame.target, frames := s.frames[..|s.frames| - 1], data := m.restore(s.data, frame.saved)))
  }

  function Stop<D, F>(v: Verdict, s: Interp<D, F>): Run<Interp<D, F>, D> {
    Done(v, s.due, s.previous, s.data)
  }

  function PushFrame<D, F>(m: Guest<D, F>, s: Interp<D, F>, target: nat): Interp<D, F> {
    s.(pc := target, frames := s.frames + [Frame(s.pc + 1, m.save(s.data))], data := m.enter(s.data))
  }

  function Enter<D, F>(m: Guest<D, F>, maxDepth: nat, s: Interp<D, F>, target: nat): Run<Interp<D, F>, D> {
    if |s.frames| + 1 == maxDepth then Stop(CallDepthExceeded, s) else Going(PushFrame(m, s, target))
  }

  lemma InterpretsJump<D, F>(p: seq<Insn>, m: Guest<D, F>, maxDepth: nat, s: Interp<D, F>)
    requires s.due < s.previous && s.pc < |p| && (p[s.pc].Jump? || p[s.pc].Branch?)
    ensures var taken := p[s.pc].Jump? || m.taken(s.pc, s.data);
      Interpret(p, m, maxDepth, s) == Going(s.(due := s.due + 1, pc := if taken then p[s.pc].target else s.pc + 1))
  {
  }

  lemma InterpretsPlain<D, F>(p: seq<Insn>, m: Guest<D, F>, maxDepth: nat, s: Interp<D, F>)
    requires s.due < s.previous && s.pc < |p| && p[s.pc].Plain?
    ensures Interpret(p, m, maxDepth, s) ==
      match m.exec(s.pc, s.data)
      case Ok(d) => Going(s.(due := s.due + 1, pc := s.pc + 1, data := d))
      case Err(f) => Stop(VerdictOf(f), s.(due := s.due + 1, data := f.data))
  {
  }

  lemma InterpretsExit<D, F>(p: seq<Insn>, m: Guest<D, F>, maxDepth: nat, s: Interp<D, F>)
    requires s.due < s.previous && s.pc < |p| && p[s.pc].Exit?
    ensures var t, k := s.(due := s.due + 1), |s.frames| - 1;
      Interpret(p, m, maxDepth, s) ==
        if s.frames == [] then Stop(Success, t)
        else Going(t.(pc := s.frames[k].target, frames := s.frames[..k], data := m.restore(s.data, s.frames[k].saved)))
  {
  }

  lemma InterpretsCallRegister<D, F>(p: seq<Insn>, m: Guest<D, F>, maxDepth: nat, s: Interp<D, F>)
    requires s.due < s.previous && s.pc < |p| && p[s.pc].CallRegister?
    ensures var t, target := s.(due := s.due + 1), m.callee(s.pc, s.data);
      Interpret(p, m, maxDepth, s) ==
        if |s.frames| + 1 == maxDepth then Stop(CallDepthExceeded, t)
        else if target < |p| then Going(PushFrame(m, t, target))
        else Stop(CallOutsideTextSegment, PushFrame(m, t, s.pc))
  {
  }

  lemma InterpretsCall<D, F>(p: seq<Insn>, m: Guest<D, F>, maxDepth: nat, s: Interp<D, F>)
    requires s.due < s.previous && s.pc < |p| && p[s.pc].CallTo?
    ensures Interpret(p, m, maxDepth, s) == Enter(m, maxDepth, s.(due := s.due + 1), p[s.pc].target)
  {
  }

  lemma InterpretsUnresolved<D, F>(p: seq<Insn>, m: Guest<D, F>, maxDepth: nat, s: Interp<D, F>)
    requires s.due < s.previous && s.pc < |p| && p[s.pc].Unresolved?
    ensures Interpret(p, m, maxDepth, s) == Stop(UnsupportedInstruction, s.(due := s.due + 1))
  {
  }

  lemma InterpretsSyscall<D, F>(p: seq<Insn>, m: Guest<D, F>, maxDepth: nat, s: Interp<D, F>)
    requires s.due < s.previous && s.pc < |p| && (p[s.pc].Syscall? || p[s.pc].SyscallAndCall?)
    ensures var (result, left) := m.syscall(s.pc, s.data, s.previous - s.due - 1);
      var t := s.(due := 0, previous := left);
      Interpret(p, m, maxDepth, s) ==
        match result
        case Err(f) => Stop(SyscallError(f.code), t.(data := f.data))
        case Ok(d) =>
          if p[s.pc].Syscall? then Going(t.(pc := s.pc + 1, data := d))
          else Enter(m, maxDepth, t.(data := d), p[s.pc].target)
  {
  }

  /** `k` steps of the interpreter, or fewer if it stops. */
  function InterpretFor<D, F>(p: seq<Insn>, m: Guest<D, F>, maxDepth: nat, s: Interp<D, F>,
                              k: nat): Run<Interp<D, F>, D>
    decreases k
  {
    if k == 0 then Going(s)
    else
      match Interpret(p, m, maxDepth, s)
      case Done(v, due, previous, data) => Done(v, due, previous, data)
      case Going(t) => InterpretFor(p, m, maxDepth, t, k - 1)
  }

  // ---------------------------------------------------------------- emitted code

  /** The host operations that matter for the meter. */
  datatype Op = LoadScratch(value: nat)    // scratch register := value
    | Validate                             // leave with ExceededMaxInstructions unless meter > scratch
    | AddMeter(delta: int)                 // meter += delta, which may go through the scratch register
    | Exec | ExecWide                      // the data effect; a fault loads the pc and throws
    | Goto(target: nat) | GotoIf(target: nat)
    | Prologue                             // validate, save registers, count the call depth, bump the frame
    | Call(target: nat) | CallIndirect     // push the return address and jump
    | Restore                              // pop the saved registers
    | External                             // hand the meter over to a system call and read it back
    | ExitOrReturn | Throw(verdict: Verdict)

  function ValidateAt(pc: nat): seq<Op> {
    [LoadScratch(pc), Validate]
  }

  /** `emit_profile_instruction_count` and `emit_undo_profile_instruction_count` at `pc`. */
  function Profile(pc: nat, target: nat): Op {
    AddMeter(target - pc - 1)
  }

  function UndoProfile(pc: nat, target: nat): Op {
    AddMeter(pc + 1 - target)
  }

  function SyscallOps(pc: nat): seq<Op> {
    [LoadScratch(pc), Validate, Profile(pc, 0), External, UndoProfile(pc, 0)]
  }

  function CallOps(pc: nat, target: nat): seq<Op> {
    [LoadScratch(pc), Prologue, Profile(pc, target), LoadScratch(target), Call(target), UndoProfile(pc, 0), Restore]
  }

  /** The code for the instruction at `pc`, without a checkpoint. */
  function Emit(insn: Insn, pc: nat): seq<Op> {
    match insn
    case Plain => [Exec]
    case Wide => [LoadScratch(pc), Validate, Profile(pc, pc + 2), ExecWide]
    case Half => [Throw(UnsupportedInstruction)]
    case Jump(target) => [LoadScratch(pc), Validate, Profile(pc, target), Goto(target)]
    case Branch(target) => [LoadScratch(pc), Validate, Profile(pc, target), GotoIf(target), UndoProfile(pc, target)]
    case CallTo(target) => CallOps(pc, target)
    case CallRegister => [LoadScratch(pc), Prologue, CallIndirect, UndoProfile(pc, 0), Restore]
    case Syscall => SyscallOps(pc)
    case SyscallAndCall(target) => SyscallOps(pc) + CallOps(pc, target)
    case Unresolved => [LoadScratch(pc), Throw(UnsupportedInstruction)]
    case Exit => [LoadScratch(pc), Validate, Profile(pc, 0), ExitOrReturn]
  }

  /** The bumper behind the last instruction. */
  function Bumper(pc: nat): seq<Op> {
    [LoadScratch(pc), Validate, Profile(pc, pc + 1), LoadScratch(pc), Throw(ExecutionOverrun)]
  }

  function EmitChecked(insn: Insn, pc: nat, checkpoint: bool): seq<Op> {
    if checkpoint then ValidateAt(pc) + Emit(insn, pc) else Emit(insn, pc)
  }

  /** `code[pc]` is the code of each instruction, with or without a checkpoint in front, and the bumper. */
  ghost predicate IsCompiled(p: seq<Insn>, code: seq<seq<Op>>) {
    && |code| == |p| + 1 && code[|p|] == Bumper(|p|)
    && forall pc :: 0 <= pc < |p| ==>
      code[pc] == Emit(p[pc], pc) || (!p[pc].Half? && code[pc] == ValidateAt(pc) + Emit(p[pc], pc))
  }

  // ---------------------------------------------------------------- the host

  datatype Slot<+F> = Saved(saved: F) | Return(pc: nat, op: nat)

  datatype Host<+D, +F> = Host(pc: nat, op: nat, meter: nat, scratch: nat, previous: nat, depth: nat,
                               stack: seq<Slot<F>>, data: D)

  /** The epilogue: stores previous - (meter - 1 - scratch). */
  function Epilogue<D, F>(v: Verdict, s: Host<D, F>): Run<Host<D, F>, D> {
    Done(v, Trunc(W64, s.previous - (s.meter - 1 - s.scratch)), s.previous, s.data)
  }

  /** Whether compiled code sets the kind of the error itself. */
  predicate SetsKind(v: Verdict) {
    v != Success && !v.Fault? && !v.SyscallError?
  }

  /** The data that compiled code leaves behind where the interpreter leaves `data`. */
  function Left<D, F>(m: Guest<D, F>, v: Verdict, data: D): D {
    if SetsKind(v) then m.raise(data) else data
  }

  /** Leaving with ExceededMaxInstructions copies the meter to the scratch register first. */
  function Exceeded<D, F>(m: Guest<D, F>, s: Host<D, F>): Run<Host<D, F>, D> {
    Epilogue(ExceededMaxInstructions, s.(scratch := s.meter, data := Left(m, ExceededMaxInstructions, s.data)))
  }

  /** Errors are reported only if the budget lasted until the instruction that raised them. */
  function ThrowChecked<D, F>(m: Guest<D, F>, v: Verdict, s: Host<D, F>): Run<Host<D, F>, D> {
    var t := s.(data := Left(m, v, s.data));
    if t.meter <= t.scratch then Exceeded(m, t) else Epilogue(v, t)
  }

  /** Code follows in the order of emission; the second slot of a wide load has none of its own. */
  function NextPc(p: seq<Insn>, pc: nat): nat {
    if pc < |p| && p[pc].Wide? then pc + 2 else pc + 1
  }

  function Next<D, F>(s: Host<D, F>): Run<Host<D, F>, D> {
    Going(s.(op := s.op + 1))
  }

  /**
   A compiled program with the meaning of its instructions and the limit on the call depth. `scrap` is
   what an addition to the meter leaves in the scratch register.
   */
  datatype Jit<!D, !F> = Jit(p: seq<Insn>, code: seq<seq<Op>>, m: Guest<D, F>, maxDepth: nat,
                             scrap: (nat, nat, nat) -> nat)

  function Scrap<D, F>(e: Jit<D, F>, s: Host<D, F>): nat {
    e.scrap(s.pc, s.op, s.scratch)
  }

  /**
   One host operation. The empty-stack and out-of-code cases never arise in compiled programs; the
   host just stays there.
   */
  function Execute<D, F>(e: Jit<D, F>, s: Host<D, F>): Run<Host<D, F>, D> {
    if s.pc >= |e.code| then Going(s)
    else if s.op >= |e.code[s.pc]| then Going(s.(pc := NextPc(e.p, s.pc), op := 0))
    else
      match e.code[s.pc][s.op]
      case LoadScratch(value) => Next(s.(scratch := value))
      case Validate => if s.meter <= s.scratch then Exceeded(e.m, s) else Next(s)
      case AddMeter(delta) => Next(s.(meter := Trunc(W64, s.meter + delta), scratch := Scrap(e, s)))
      case Exec =>
        (match e.m.exec(s.pc, s.data)
         case Ok(d) => Next(s.(data := d))
         case Err(f) => ThrowChecked(e.m, VerdictOf(f), s.(scratch := s.pc, data := f.data)))
      case ExecWide => Next(s.(data := e.m.wide(s.pc, s.data)))
      case Goto(target) => Going(s.(pc := target, op := 0))
      case GotoIf(target) => if e.m.taken(s.pc, s.data) then Going(s.(pc := target, op := 0)) else Next(s)
      case Prologue =>
        if s.meter <= s.scratch then Exceeded(e.m, s)
        else
          var t := s.(depth := s.depth + 1, stack := s.stack + [Saved(e.m.save(s.data))]);
          if t.depth >= e.maxDepth then ThrowChecked(e.m, CallDepthExceeded, t)
          else Next(t.(data := e.m.enter(t.data)))
      case Call(target) => Going(s.(pc := target, op := 0, stack := s.stack + [Return(s.pc, s.op + 1)]))
      case CallIndirect =>
        var target := e.m.callee(s.pc, s.data);
        if target >= |e.p| then ThrowChecked(e.m, CallOutsideTextSegment, s.(scratch := s.pc))
        else Going(s.(pc := target, op := 0, scratch := target, meter := Trunc(W64, s.meter - s.pc - 1 + target),
                      stack := s.stack + [Return(s.pc, s.op + 1)]))
      case Restore =>
        if s.stack == [] || !s.stack[|s.stack| - 1].Saved? then Going(s)
        else Next(s.(stack := s.stack[..|s.stack| - 1], data := e.m.restore(s.data, s.stack[|s.stack| - 1].saved)))
      case External =>
        var (result, left) := e.m.syscall(s.pc, s.data, s.meter);
        var t := s.(previous := left, meter := left);
        (match result
         case Ok(d) => Next(t.(data := d))
         case Err(f) => Done(SyscallError(f.code), Trunc(W64, t.previous - (t.meter - 1 - (-1))), t.previous, f.data))
      case ExitOrReturn =>
        if s.depth == 0 then Epilogue(Success, s.(meter := Trunc(W64, s.meter + 1), scratch := 0))
        else if s.stack == [] || !s.stack[|s.stack| - 1].Return? then Going(s)
        else
          var back := s.stack[|s.stack| - 1];
          Going(s.(depth := s.depth - 1, stack := s.stack[..|s.stack| - 1], pc := back.pc, op := back.op))
      case Throw(v) => ThrowChecked(e.m, v, s)
  }

  function ExecuteFor<D, F>(e: Jit<D, F>, s: Host<D, F>, k: nat): Run<Host<D, F>, D>
    decreases k
  {
    if k == 0 then Going(s)
    else
      match Execute(e, s)
      case Done(v, due, previous, data) => Done(v, due, previous, data)
      case Going(t) => ExecuteFor(e, t, k - 1)
  }

  // ---------------------------------------------------------------- single operations

  /** The host is about to perform `op`. */
  predicate At<D, F>(e: Jit<D, F>, s: Host<D, F>, op: Op) {
    s.pc < |e.code| && s.op < |e.code[s.pc]| && e.code[s.pc][s.op] == op
  }

  lemma FitsWord(x: int)
    requires 0 <= x < WORD
    ensures Trunc(W64, x) == x
  {
  }

  lemma DoesLoad<D, F>(e: Jit<D, F>, s: Host<D, F>, value: nat)
    requires At(e, s, LoadScratch(value))
    ensures Execute(e, s) == Going(s.(op := s.op + 1, scratch := value))
  {
  }

  lemma DoesValidate<D, F>(e: Jit<D, F>, s: Host<D, F>)
    requires At(e, s, Validate) && s.meter > s.scratch
    ensures Execute(e, s) == Going(s.(op := s.op + 1))
  {
  }

  lemma DoesAdd<D, F>(e: Jit<D, F>, s: Host<D, F>, delta: int)
    requires At(e, s, AddMeter(delta)) && 0 <= s.meter + delta < WORD
    ensures Execute(e, s) == Going(s.(op := s.op + 1, meter := s.meter + delta, scratch := Scrap(e, s)))
  {
    FitsWord(s.meter + delta);
    hide Trunc;
  }

  lemma DoesBranch<D, F>(e: Jit<D, F>, s: Host<D, F>, target: nat)
    requires At(e, s, GotoIf(target))
    ensures Execute(e, s) == Going(if e.m.taken(s.pc, s.data) then s.(pc := target, op := 0) else s.(op := s.op + 1))
  {
  }

  lemma DoesCall<D, F>(e: Jit<D, F>, s: Host<D, F>, target: nat)
    requires At(e, s, Call(target))
    ensures Execute(e, s) == Going(s.(pc := target, op := 0, stack := s.stack + [Return(s.pc, s.op + 1)]))
  {
  }

  lemma DoesExternal<D, F>(e: Jit<D, F>, s: Host<D, F>)
    requires At(e, s, External)
    ensures var (result, left) := e.m.syscall(s.pc, s.data, s.meter);
      Execute(e, s) ==
        match result
        case Ok(d) => Going(s.(op := s.op + 1, previous := left, meter := left, data := d))
        case Err(f) => Done(SyscallError(f.code), 0, left, f.data)
  {
    FitsWord(0);
    hide Trunc;
  }

  lemma DoesExit<D, F>(e: Jit<D, F>, s: Host<D, F>)
    requires At(e, s, ExitOrReturn) && s.depth == 0 && s.meter <= s.previous && s.meter + 1 < WORD
    requires s.previous < WORD
    ensures Execute(e, s) == Done(Success, s.previous - s.meter, s.previous, s.data)
  {
    FitsWord(s.meter + 1);
    FitsWord(s.previous - s.meter);
    hide Trunc;
  }

  lemma DoesReturn<D, F>(e: Jit<D, F>, s: Host<D, F>)
    requires At(e, s, ExitOrReturn) && s.depth > 0 && s.stack != [] && s.stack[|s.stack| - 1].Return?
    ensures var back := s.stack[|s.stack| - 1];
      Execute(e, s) ==
        Going(s.(depth := s.depth - 1, stack := s.stack[..|s.stack| - 1], pc := back.pc, op := back.op))
  {
  }

  lemma DoesRestore<D, F>(e: Jit<D, F>, s: Host<D, F>)
    requires At(e, s, Restore) && s.stack != [] && s.stack[|s.stack| - 1].Saved?
    ensures Execute(e, s) == Going(s.(op := s.op + 1, stack := s.stack[..|s.stack| - 1],
                                      data := e.m.restore(s.data, s.stack[|s.stack| - 1].saved)))
  {
  }

  lemma DoesIndirect<D, F>(e: Jit<D, F>, s: Host<D, F>, target: nat)
    requires At(e, s, CallIndirect) && e.m.callee(s.pc, s.data) == target < |e.p|
    requires 0 <= s.meter - s.pc - 1 + target < WORD
    ensures Execute(e, s) == Going(s.(pc := target, op := 0, scratch := target, meter := s.meter - s.pc - 1 + target,
                                      stack := s.stack + [Return(s.pc, s.op + 1)]))
  {
    FitsWord(s.meter - s.pc - 1 + target);
    hide Trunc;
  }

  lemma DoesMiss<D, F>(e: Jit<D, F>, s: Host<D, F>, due: nat)
    requires At(e, s, CallIndirect) && e.m.callee(s.pc, s.data) >= |e.p|
    requires s.meter == s.previous - due + s.pc + 1 && due <= s.previous < WORD
    ensures Execute(e, s) == Done(CallOutsideTextSegment, due, s.previous, e.m.raise(s.data))
  {
    FitsWord(due);
    hide Trunc;
  }

  lemma DoesThrow<D, F>(e: Jit<D, F>, s: Host<D, F>, v: Verdict, due: nat)
    requires At(e, s, Throw(v)) && s.scratch == s.pc
    requires s.meter == s.previous - due + s.pc + 1 && due <= s.previous < WORD
    ensures Execute(e, s) == Done(v, due, s.previous, Left(e.m, v, s.data))
  {
    FitsWord(due);
    hide Trunc;
  }

  /** Behind the last operation comes the code of the next instruction. */
  lemma DoesEnd<D, F>(e: Jit<D, F>, s: Host<D, F>)
    requires s.pc < |e.code| && s.op == |e.code[s.pc]|
    ensures Execute(e, s) == Going(s.(pc := NextPc(e.p, s.pc), op := 0))
  {
  }

  // ---------------------------------------------------------------- leading from one host state to another

  /** Some positive number of host operations leads from `s` to `r`. */
  ghost predicate Leads<D(!new), F(!new)>(e: Jit<D, F>, s: Host<D, F>, r: Run<Host<D, F>, D>) {
    exists k: nat :: k > 0 && ExecuteFor(e, s, k) == r
  }

  lemma OneStep<D(!new), F(!new)>(e: Jit<D, F>, s: Host<D, F>, r: Run<Host<D, F>, D>)
    requires Execute(e, s) == r
    ensures Leads(e, s, r)
  {
    hide Execute;
    if r.Going? {
      assert ExecuteFor(e, r.state, 0) == r;
    }
    assert ExecuteFor(e, s, 1) == r;
  }

  lemma {:induction false} ExecuteForAdds<D, F>(e: Jit<D, F>, s: Host<D, F>, k: nat, l: nat, t: Host<D, F>)
    requires ExecuteFor(e, s, k) == Going(t)
    ensures ExecuteFor(e, s, k + l) == ExecuteFor(e, t, l)
    decreases k
  {
    hide Execute;
    if k > 0 {
      var r := Execute(e, s);
      ExecuteForAdds(e, r.state, k - 1, l, t);
    }
  }

  lemma LeadsOn<D(!new), F(!new)>(e: Jit<D, F>, s: Host<D, F>, t: Host<D, F>, r: Run<Host<D, F>, D>)
    requires Leads(e, s, Going(t)) && Leads(e, t, r)
    ensures Leads(e, s, r)
  {
    hide Execute, ExecuteFor;
    var k: nat :| k > 0 && ExecuteFor(e, s, k) == Going(t);
    var l: nat :| l > 0 && ExecuteFor(e, t, l) == r;
    ExecuteForAdds(e, s, k, l, t);
    assert ExecuteFor(e, s, k + l) == r;
  }

  lemma StepOn<D(!new), F(!new)>(e: Jit<D, F>, s: Host<D, F>, t: Host<D, F>, r: Run<Host<D, F>, D>)
    requires Execute(e, s) == Going(t) && Leads(e, t, r)
    ensures Leads(e, s, r)
  {
    hide Execute, ExecuteFor, Leads;
    OneStep(e, s, Going(t));
    LeadsOn(e, s, t, r);
  }

  // ---------------------------------------------------------------- the refinement relation

  /** The host stack holds, for every frame, the saved registers and a return into the code behind the call. */
  ghost predicate StackMatches<F>(p: seq<Insn>, code: seq<seq<Op>>, frames: seq<Frame<F>>, stack: seq<Slot<F>>) {
    && |stack| == 2 * |frames|
    && forall k :: 0 <= k < |frames| ==> SlotMatches(p, code, frames[k], stack[2 * k], stack[2 * k + 1])
  }

  ghost predicate SlotMatches<F>(p: seq<Insn>, code: seq<seq<Op>>, frame: Frame<F>, saved: Slot<F>, back: Slot<F>) {
    && saved == Saved(frame.saved) && back.Return? && back.pc < |p| && back.pc < |code| && frame.target == back.pc + 1
    && !p[back.pc].Wide?
    && back.op + 2 == |code[back.pc]| && code[back.pc][back.op] == AddMeter(back.pc + 1)
    && code[back.pc][back.op + 1] == Restore
  }

  /** At an instruction boundary: meter minus pc is the interpreter's remaining budget; everything else is the same. */
  ghost predicate Sim<D, F>(e: Jit<D, F>, i: Interp<D, F>, j: Host<D, F>) {
    && j.pc == i.pc <= |e.p| && j.op == 0 && i.due <= i.previous && i.previous + |e.p| < WORD
    && j.meter == i.previous - i.due + i.pc
    && j.previous == i.previous && j.data == i.data && j.depth == |i.frames| < e.maxDepth
    && StackMatches(e.p, e.code, i.frames, j.stack)
    && (i.pc < |e.p| && e.p[i.pc].Half? ==> j.scratch == i.pc)
  }

  /** The code of the instruction at `pc` starts at operation `off`, behind the checkpoint if there is one. */
  ghost predicate CodeAt<D, F>(e: Jit<D, F>, pc: nat, off: nat) {
    && pc < |e.p| && pc < |e.code| && |e.code[pc]| == off + |Emit(e.p[pc], pc)|
    && forall x :: 0 <= x < |Emit(e.p[pc], pc)| ==> e.code[pc][off + x] == Emit(e.p[pc], pc)[x]
  }

  lemma OpAt<D, F>(e: Jit<D, F>, pc: nat, off: nat, x: nat)
    requires CodeAt(e, pc, off) && x < |Emit(e.p[pc], pc)|
    ensures off + x < |e.code[pc]| && e.code[pc][off + x] == Emit(e.p[pc], pc)[x]
  {
  }

  /** The operations of the instruction at `pc`, spelled out. */
  lemma Ops<D, F>(e: Jit<D, F>, pc: nat, off: nat)
    requires CodeAt(e, pc, off) && !e.p[pc].SyscallAndCall?
    ensures var ops, n := Emit(e.p[pc], pc), |Emit(e.p[pc], pc)|;
      && 1 <= n <= 7 && |e.code[pc]| == off + n && e.code[pc][off] == ops[0]
      && (n > 1 ==> e.code[pc][off + 1] == ops[1]) && (n > 2 ==> e.code[pc][off + 2] == ops[2])
      && (n > 3 ==> e.code[pc][off + 3] == ops[3]) && (n > 4 ==> e.code[pc][off + 4] == ops[4])
      && (n > 5 ==> e.code[pc][off + 5] == ops[5]) && (n > 6 ==> e.code[pc][off + 6] == ops[6])
  {
    var n := |Emit(e.p[pc], pc)|;
    OpAt(e, pc, off, 0);
    if n > 1 { OpAt(e, pc, off, 1); }
    if n > 2 { OpAt(e, pc, off, 2); }
    if n > 3 { OpAt(e, pc, off, 3); }
    if n > 4 { OpAt(e, pc, off, 4); }
    if n > 5 { OpAt(e, pc, off, 5); }
    if n > 6 { OpAt(e, pc, off, 6); }
  }

  /** A checkpoint lets a run pass that still has budget. */
  lemma PassesCheckpoint<D(!new), F(!new)>(e: Jit<D, F>, s: Host<D, F>) returns (off: nat, t: Host<D, F>)
    requires IsCompiled(e.p, e.code) && s.pc < |e.p| && s.op == 0 && s.meter > s.pc
    ensures CodeAt(e, s.pc, off) && t == s.(op := off, scratch := t.scratch)
    ensures t == s || Leads(e, s, Going(t))
    ensures e.p[s.pc].Half? ==> t == s
  {
    hide Leads;
    if e.code[s.pc] == Emit(e.p[s.pc], s.pc) {
      off, t := 0, s;
    } else {
      off := 2;
      var a := s.(scratch := s.pc, op := 1);
      t := a.(op := 2);
      assert Execute(e, s) == Going(a);
      assert Execute(e, a) == Going(t);
      hide Execute;
      OneStep(e, a, Going(t));
      StepOn(e, s, a, Going(t));
    }
  }

  /** The next interpreter state, or the way the interpreter stopped, is reached by the host as well. */
  ghost predicate Simulated<D(!new), F(!new)>(e: Jit<D, F>, r: Run<Interp<D, F>, D>, s: Host<D, F>) {
    match r
    case Going(i) => exists t :: Sim(e, i, t) && Leads(e, s, Going(t))
    case Done(v, due, previous, data) => Leads(e, s, Done(v, due, previous, Left(e.m, v, data)))
  }

  lemma Simulates<D(!new), F(!new)>(e: Jit<D, F>, i: Interp<D, F>, s: Host<D, F>, t: Host<D, F>)
    requires Sim(e, i, t) && Leads(e, s, Going(t))
    ensures Simulated(e, Going(i), s)
  {
  }

  /** Common ground of the instruction lemmas: related states, budget left, the host at the instruction's own code. */
  ghost predicate Ready<D(!new), F(!new)>(e: Jit<D, F>, i: Interp<D, F>, s: Host<D, F>, off: nat) {
    && IsCompiled(e.p, e.code) && WellFormed(e.p) && Sane(e.m)
    && i.due < i.previous && i.pc < |e.p| && CodeAt(e, i.pc, off) && s.op == off
    && Sim(e, i, s.(op := 0))
  }

  /** `ValidateAt(pc)` passes and leaves the host behind it. */
  lemma Validates<D(!new), F(!new)>(e: Jit<D, F>, i: Interp<D, F>, s: Host<D, F>, off: nat) returns (t: Host<D, F>)
    requires Ready(e, i, s, off) && ValidateAt(i.pc) <= Emit(e.p[i.pc], i.pc)
    ensures t == s.(op := off + 2, scratch := s.pc) && Leads(e, s, Going(t))
  {
    hide Leads, WellFormed, IsCompiled;
    var a := s.(scratch := s.pc, op := off + 1);
    t := a.(op := off + 2);
    assert Emit(e.p[i.pc], i.pc)[0] == LoadScratch(i.pc) && Emit(e.p[i.pc], i.pc)[1] == Validate;
    assert Execute(e, s) == Going(a) && Execute(e, a) == Going(t);
    hide Execute;
    OneStep(e, a, Going(t));
    StepOn(e, s, a, Going(t));
  }

  lemma SimulatePlain<D(!new), F(!new)>(e: Jit<D, F>, i: Interp<D, F>, s: Host<D, F>, off: nat)
    requires Ready(e, i, s, off) && e.p[i.pc].Plain?
    ensures Simulated(e, Interpret(e.p, e.m, e.maxDepth, i), s)
  {
    hide Leads, IsCompiled, StackMatches;
    Ops(e, i.pc, off);
    var r := Interpret(e.p, e.m, e.maxDepth, i);
    match e.m.exec(i.pc, i.data)
    case Ok(d) =>
      var a := s.(op := off + 1, data := d);
      var t := a.(pc := s.pc + 1, op := 0);
      assert Execute(e, s) == Going(a) && Execute(e, a) == Going(t);
      assert Sim(e, r.state, t);
      hide Execute, Sim;
      OneStep(e, a, Going(t));
      StepOn(e, s, a, Going(t));
      Simulates(e, r.state, s, t);
    case Err(f) =>
      assert Execute(e, s) == Done(r.verdict, r.due, r.previous, Left(e.m, r.verdict, r.data));
      OneStep(e, s, Done(r.verdict, r.due, r.previous, Left(e.m, r.verdict, r.data)));
  }

  lemma NoHalfBehindWide(p: seq<Insn>, pc: nat)
    requires WellFormed(p) && pc < |p| && p[pc].Wide?
    ensures pc + 1 < |p| && (pc + 2 < |p| ==> !p[pc + 2].Half?)
  {
    assert p[pc + 1].Half?;
    if pc + 2 < |p| {
      assert !p[pc + 2].Half?;
    }
  }

  lemma SimulateWide<D(!new), F(!new)>(e: Jit<D, F>, i: Interp<D, F>, s: Host<D, F>, off: nat)
    requires Ready(e, i, s, off) && e.p[i.pc].Wide?
    ensures Simulated(e, Interpret(e.p, e.m, e.maxDepth, i), s)
  {
    hide Leads, IsCompiled, StackMatches;
    Ops(e, i.pc, off);
    var r := Interpret(e.p, e.m, e.maxDepth, i);
    var a := Validates(e, i, s, off);
    var b := a.(op := off + 3, meter := s.meter + 1, scratch := Scrap(e, a));
    var c := b.(op := off + 4, data := e.m.wide(i.pc, i.data));
    var t := c.(pc := s.pc + 2, op := 0);
    assert Execute(e, a) == Going(b) && Execute(e, b) == Going(c) && Execute(e, c) == Going(t);
    NoHalfBehindWide(e.p, i.pc);
    assert Sim(e, r.state, t);
    hide Execute, Sim, Ready;
    OneStep(e, c, Going(t));
    StepOn(e, b, c, Going(t));
    StepOn(e, a, b, Going(t));
    LeadsOn(e, s, a, Going(t));
    Simulates(e, r.state, s, t);
  }

  lemma SimulateJump<D(!new), F(!new)>(e: Jit<D, F>, i: Interp<D, F>, s: Host<D, F>, off: nat)
    requires Ready(e, i, s, off) && e.p[i.pc].Jump?
    ensures Simulated(e, Interpret(e.p, e.m, e.maxDepth, i), s)
  {
    hide Leads, IsCompiled, StackMatches;
    Ops(e, i.pc, off);
    var r, target := Interpret(e.p, e.m, e.maxDepth, i), e.p[i.pc].target;
    var a := Validates(e, i, s, off);
    var b := a.(op := off + 3, meter := s.meter + target - s.pc - 1, scratch := Scrap(e, a));
    var t := b.(pc := target, op := 0);
    assert Execute(e, a) == Going(b) && Execute(e, b) == Going(t);
    assert Sim(e, r.state, t);
    hide Execute, Sim, Ready;
    OneStep(e, b, Going(t));
    StepOn(e, a, b, Going(t));
    LeadsOn(e, s, a, Going(t));
    Simulates(e, r.state, s, t);
  }

  lemma SimulateBranch<D(!new), F(!new)>(e: Jit<D, F>, i: Interp<D, F>, s: Host<D, F>, off: nat)
    requires Ready(e, i, s, off) && e.p[i.pc].Branch?
    ensures Simulated(e, Interpret(e.p, e.m, e.maxDepth, i), s)
  {
    hide Leads, IsCompiled, StackMatches, Interpret, Execute;
    Ops(e, i.pc, off);
    InterpretsJump(e.p, e.m, e.maxDepth, i);
    var r, target := Interpret(e.p, e.m, e.maxDepth, i), e.p[i.pc].target;
    var a := Validates(e, i, s, off);
    var b := a.(op := off + 3, meter := s.meter + target - s.pc - 1, scratch := Scrap(e, a));
    DoesAdd(e, a, target - s.pc - 1);
    DoesBranch(e, b, target);
    var t;
    if e.m.taken(i.pc, i.data) {
      t := b.(pc := target, op := 0);
      assert Sim(e, r.state, t);
      OneStep(e, b, Going(t));
    } else {
      var c := b.(op := off + 4);
      var d := c.(op := off + 5, meter := s.meter, scratch := Scrap(e, c));
      t := d.(pc := s.pc + 1, op := 0);
      DoesAdd(e, c, s.pc + 1 - target);
      DoesEnd(e, d);
      assert Sim(e, r.state, t);
      OneStep(e, d, Going(t));
      StepOn(e, c, d, Going(t));
      StepOn(e, b, c, Going(t));
    }
    hide Sim, Ready;
    StepOn(e, a, b, Going(t));
    LeadsOn(e, s, a, Going(t));
    Simulates(e, r.state, s, t);
  }

  /** A call that fits the depth limit leaves a matching host stack. */
  lemma PushMatches<F>(p: seq<Insn>, code: seq<seq<Op>>, frames: seq<Frame<F>>, stack: seq<Slot<F>>, frame: Frame<F>,
                       back: Slot<F>)
    requires StackMatches(p, code, frames, stack) && SlotMatches(p, code, frame, Saved(frame.saved), back)
    ensures StackMatches(p, code, frames + [frame], stack + [Saved(frame.saved)] + [back])
  {
    hide SlotMatches;
    var f, t := frames + [frame], stack + [Saved(frame.saved)] + [back];
    forall k | 0 <= k < |f| ensures SlotMatches(p, code, f[k], t[2 * k], t[2 * k + 1]) {
      if k < |frames| {
        assert SlotMatches(p, code, frames[k], stack[2 * k], stack[2 * k + 1]);
      }
    }
  }

  /** In the middle of an instruction that the interpreter has counted already. */
  ghost predicate Counted<D, F>(e: Jit<D, F>, t: Interp<D, F>, s: Host<D, F>) {
    && s.pc == t.pc < |e.p| && t.due <= t.previous && t.previous + |e.p| < WORD
    && s.meter == t.previous - t.due + t.pc + 1
    && s.previous == t.previous && s.data == t.data && s.depth == |t.frames| < e.maxDepth
    && StackMatches(e.p, e.code, t.frames, s.stack)
  }

  /** The code of the block `pc` has the given operations at `off`. */
  ghost predicate OpsAt(code: seq<seq<Op>>, pc: nat, off: nat, ops: seq<Op>) {
    && pc < |code| && off + |ops| <= |code[pc]|
    && forall x: nat :: x < |ops| ==> code[pc][off + x] == ops[x]
  }

  lemma OpIs(code: seq<seq<Op>>, pc: nat, off: nat, ops: seq<Op>, x: nat)
    requires OpsAt(code, pc, off, ops) && x < |ops|
    ensures code[pc][off + x] == ops[x]
  {
  }

  lemma CallOpsAre(code: seq<seq<Op>>, pc: nat, off: nat, target: nat)
    requires OpsAt(code, pc, off, CallOps(pc, target))
    ensures code[pc][off] == LoadScratch(pc) && code[pc][off + 1] == Prologue
    ensures code[pc][off + 2] == Profile(pc, target) && code[pc][off + 3] == LoadScratch(target)
    ensures code[pc][off + 4] == Call(target)
    ensures code[pc][off + 5] == AddMeter(pc + 1) && code[pc][off + 6] == Restore
  {
    hide OpsAt;
    var ops := CallOps(pc, target);
    OpIs(code, pc, off, ops, 0);
    OpIs(code, pc, off, ops, 1);
    OpIs(code, pc, off, ops, 2);
    OpIs(code, pc, off, ops, 3);
    OpIs(code, pc, off, ops, 4);
    OpIs(code, pc, off, ops, 5);
    OpIs(code, pc, off, ops, 6);
  }

  lemma SyscallOpsAre(code: seq<seq<Op>>, pc: nat, off: nat)
    requires OpsAt(code, pc, off, SyscallOps(pc))
    ensures code[pc][off] == LoadScratch(pc) && code[pc][off + 1] == Validate
    ensures code[pc][off + 2] == Profile(pc, 0) && code[pc][off + 3] == External
    ensures code[pc][off + 4] == UndoProfile(pc, 0)
  {
    hide OpsAt;
    var ops := SyscallOps(pc);
    OpIs(code, pc, off, ops, 0);
    OpIs(code, pc, off, ops, 1);
    OpIs(code, pc, off, ops, 2);
    OpIs(code, pc, off, ops, 3);
    OpIs(code, pc, off, ops, 4);
  }

  /** The common part of all calls: the prologue validates, counts the depth and bumps the frame. */
  lemma EntersPrologue<D(!new), F(!new)>(e: Jit<D, F>, t: Interp<D, F>, s: Host<D, F>, off: nat) returns (a: Host<D, F>)
    requires Counted(e, t, s) && s.op == off && s.pc < |e.code| && off + 2 <= |e.code[s.pc]|
    requires e.code[s.pc][off] == LoadScratch(s.pc) && e.code[s.pc][off + 1] == Prologue
    ensures |t.frames| + 1 == e.maxDepth ==>
      Leads(e, s, Done(CallDepthExceeded, t.due, t.previous, e.m.raise(t.data)))
    ensures |t.frames| + 1 < e.maxDepth ==>
      a == Entered(e, s, off) && Leads(e, s, Going(a))
  {
    hide Leads, StackMatches;
    var b := s.(op := off + 1, scratch := s.pc);
    a := Entered(e, s, off);
    assert Execute(e, s) == Going(b);
    if |t.frames| + 1 == e.maxDepth {
      var stop := Done(CallDepthExceeded, t.due, t.previous, e.m.raise(t.data));
      assert Execute(e, b) == stop;
      hide Execute;
      OneStep(e, b, stop);
      StepOn(e, s, b, stop);
    } else {
      assert Execute(e, b) == Going(a);
      hide Execute;
      OneStep(e, b, Going(a));
      StepOn(e, s, b, Going(a));
    }
  }

  /** The host behind the prologue. */
  function Entered<D, F>(e: Jit<D, F>, s: Host<D, F>, off: nat): Host<D, F> {
    s.(op := off + 2, scratch := s.pc, depth := s.depth + 1, stack := s.stack + [Saved(e.m.save(s.data))],
       data := e.m.enter(s.data))
  }

  /** Behind the prologue of a direct call: profile, load the target, call. */
  lemma CallsTo<D(!new), F(!new)>(e: Jit<D, F>, t: Interp<D, F>, s: Host<D, F>, off: nat, target: nat)
    returns (u: Host<D, F>)
    requires Counted(e, t, s) && s.op == off && target < |e.p| && OpsAt(e.code, s.pc, off, CallOps(s.pc, target))
    ensures var a := Entered(e, s, off);
      && u == a.(pc := target, op := 0, meter := t.previous - t.due + target, scratch := target,
                 stack := a.stack + [Return(s.pc, off + 5)])
      && Leads(e, a, Going(u))
  {
    hide Leads, StackMatches;
    var a := Entered(e, s, off);
    var b := a.(op := off + 3, meter := t.previous - t.due + target, scratch := Scrap(e, a));
    var c := b.(op := off + 4, scratch := target);
    u := c.(pc := target, op := 0, stack := c.stack + [Return(s.pc, off + 5)]);
    CallOpsAre(e.code, s.pc, off, target);
    hide Execute, OpsAt, Counted;
    DoesAdd(e, a, target - s.pc - 1);
    DoesLoad(e, b, target);
    DoesCall(e, c, target);
    OneStep(e, c, Going(u));
    StepOn(e, b, c, Going(u));
    StepOn(e, a, b, Going(u));
  }

  /** The operations of a direct call do what the interpreter does to enter a function. */
  lemma CallRuns<D(!new), F(!new)>(e: Jit<D, F>, t: Interp<D, F>, s: Host<D, F>, off: nat, target: nat)
    requires Counted(e, t, s) && s.op == off && target < |e.p| && OpsAt(e.code, s.pc, off, CallOps(s.pc, target))
    requires off + 7 == |e.code[s.pc]| && !e.p[s.pc].Wide?
    ensures Simulated(e, Enter(e.m, e.maxDepth, t, target), s)
  {
    hide Leads, StackMatches, Execute;
    var pc := s.pc;
    CallOpsAre(e.code, pc, off, target);
    var a := EntersPrologue(e, t, s, off);
    if |t.frames| + 1 < e.maxDepth {
      var u := CallsTo(e, t, s, off, target);
      PushMatches(e.p, e.code, t.frames, s.stack, Frame(pc + 1, e.m.save(t.data)), Return(pc, off + 5));
      assert Sim(e, PushFrame(e.m, t, target), u);
      hide Sim, Counted;
      LeadsOn(e, s, a, Going(u));
      Simulates(e, PushFrame(e.m, t, target), s, u);
    }
  }

  lemma SimulateCallTo<D(!new), F(!new)>(e: Jit<D, F>, i: Interp<D, F>, s: Host<D, F>, off: nat)
    requires Ready(e, i, s, off) && e.p[i.pc].CallTo?
    ensures Simulated(e, Interpret(e.p, e.m, e.maxDepth, i), s)
  {
    hide Leads, IsCompiled, StackMatches, Simulated;
    var t := i.(due := i.due + 1);
    assert OpsAt(e.code, s.pc, off, CallOps(s.pc, e.p[i.pc].target));
    CallRuns(e, t, s, off, e.p[i.pc].target);
  }

  lemma SimulateCallRegister<D(!new), F(!new)>(e: Jit<D, F>, i: Interp<D, F>, s: Host<D, F>, off: nat)
    requires Ready(e, i, s, off) && e.p[i.pc].CallRegister?
    ensures Simulated(e, Interpret(e.p, e.m, e.maxDepth, i), s)
  {
    hide Leads, IsCompiled, StackMatches, Execute, Interpret;
    Ops(e, i.pc, off);
    InterpretsCallRegister(e.p, e.m, e.maxDepth, i);
    var r, target := Interpret(e.p, e.m, e.maxDepth, i), e.m.callee(i.pc, i.data);
    var t0 := i.(due := i.due + 1);
    assert Counted(e, t0, s);
    var a := EntersPrologue(e, t0, s, off);
    if |i.frames| + 1 < e.maxDepth {
      assert e.m.callee(i.pc, a.data) == target;
      if target < |e.p| {
        var t := a.(pc := target, op := 0, scratch := target, meter := s.meter - s.pc - 1 + target,
          stack := a.stack + [Return(s.pc, off + 3)]);
        DoesIndirect(e, a, target);
        PushMatches(e.p, e.code, i.frames, s.stack, Frame(i.pc + 1, e.m.save(i.data)), Return(s.pc, off + 3));
        assert Sim(e, r.state, t);
        hide Sim, Ready;
        OneStep(e, a, Going(t));
        LeadsOn(e, s, a, Going(t));
        Simulates(e, r.state, s, t);
      } else {
        var stop := Done(r.verdict, r.due, r.previous, Left(e.m, r.verdict, r.data));
        DoesMiss(e, a, i.due + 1);
        OneStep(e, a, stop);
        LeadsOn(e, s, a, stop);
      }
    }
  }

  /** The operations of a system call: the host stops as the interpreter does, or goes on behind them. */
  lemma SyscallRuns<D(!new), F(!new)>(e: Jit<D, F>, t: Interp<D, F>, s: Host<D, F>, off: nat) returns (u: Host<D, F>)
    requires Counted(e, t, s) && s.op == off && OpsAt(e.code, s.pc, off, SyscallOps(s.pc)) && Sane(e.m)
    ensures var (result, left) := e.m.syscall(t.pc, t.data, t.previous - t.due);
      match result
      case Ok(d) =>
        && Counted(e, t.(due := 0, previous := left, data := d), u) && u.op == off + 5 && Leads(e, s, Going(u))
      case Err(f) => Leads(e, s, Done(SyscallError(f.code), 0, left, f.data))
  {
    hide Leads, StackMatches;
    var pc := s.pc;
    SyscallOpsAre(e.code, pc, off);
    var a := s.(op := off + 1, scratch := pc);
    var b := a.(op := off + 2);
    var c := b.(op := off + 3, meter := t.previous - t.due, scratch := Scrap(e, b));
    hide Execute, OpsAt, Trunc;
    DoesLoad(e, s, pc);
    DoesValidate(e, a);
    var delta: int := -1 - s.pc;
    DoesAdd(e, b, delta);
    DoesExternal(e, c);
    var (result, left) := e.m.syscall(t.pc, t.data, t.previous - t.due);
    assert left <= t.previous - t.due;
    match result {
      case Ok(d) =>
        var f := c.(op := off + 4, previous := left, meter := left, data := d);
        u := f.(op := off + 5, meter := left + pc + 1, scratch := Scrap(e, f));
        DoesAdd(e, f, pc + 1);
        OneStep(e, f, Going(u));
        StepOn(e, c, f, Going(u));
        StepOn(e, b, c, Going(u));
        StepOn(e, a, b, Going(u));
        StepOn(e, s, a, Going(u));
      case Err(f) =>
        u := s;
        var stop := Done(SyscallError(f.code), 0, left, f.data);
        OneStep(e, c, stop);
        StepOn(e, b, c, stop);
        StepOn(e, a, b, stop);
        StepOn(e, s, a, stop);
    }
  }

  lemma SimulateSyscall<D(!new), F(!new)>(e: Jit<D, F>, i: Interp<D, F>, s: Host<D, F>, off: nat)
    requires Ready(e, i, s, off) && e.p[i.pc].Syscall?
    ensures Simulated(e, Interpret(e.p, e.m, e.maxDepth, i), s)
  {
    hide Leads, IsCompiled, StackMatches;
    var t := i.(due := i.due + 1);
    assert OpsAt(e.code, s.pc, off, SyscallOps(s.pc));
    var u := SyscallRuns(e, t, s, off);
    var r := Interpret(e.p, e.m, e.maxDepth, i);
    if r.Going? {
      var v := u.(pc := s.pc + 1, op := 0);
      assert Execute(e, u) == Going(v);
      assert Sim(e, r.state, v);
      hide Execute, Sim, Ready;
      OneStep(e, u, Going(v));
      LeadsOn(e, s, u, Going(v));
      Simulates(e, r.state, s, v);
    }
  }

  /** A key that names a built-in function and a guest function: the call follows the system call. */
  lemma SimulateSyscallAndCall<D(!new), F(!new)>(e: Jit<D, F>, i: Interp<D, F>, s: Host<D, F>, off: nat)
    requires Ready(e, i, s, off) && e.p[i.pc].SyscallAndCall?
    ensures Simulated(e, Interpret(e.p, e.m, e.maxDepth, i), s)
  {
    hide Leads, IsCompiled, StackMatches, Execute, Enter;
    var t, target := i.(due := i.due + 1), e.p[i.pc].target;
    BothParts(e, i.pc, off);
    var u := SyscallRuns(e, t, s, off);
    var (result, left) := e.m.syscall(t.pc, t.data, t.previous - t.due);
    if result.Ok? {
      var v := t.(due := 0, previous := left, data := result.value);
      CallRuns(e, v, u, off + 5, target);
      hide Ready, Counted, Sim, OpsAt;
      ThenSimulated(e, Enter(e.m, e.maxDepth, v, target), s, u);
    }
  }

  lemma BothParts<D, F>(e: Jit<D, F>, pc: nat, off: nat)
    requires CodeAt(e, pc, off) && e.p[pc].SyscallAndCall?
    ensures OpsAt(e.code, pc, off, SyscallOps(pc)) && OpsAt(e.code, pc, off + 5, CallOps(pc, e.p[pc].target))
    ensures |e.code[pc]| == off + 12
  {
    var ops := Emit(e.p[pc], pc);
    forall x: nat | x < 5 ensures e.code[pc][off + x] == SyscallOps(pc)[x] {
      assert e.code[pc][off + x] == ops[x];
    }
    forall x: nat | x < 7 ensures e.code[pc][off + 5 + x] == CallOps(pc, e.p[pc].target)[x] {
      assert e.code[pc][off + (5 + x)] == ops[5 + x];
    }
  }

  lemma ThenSimulated<D(!new), F(!new)>(e: Jit<D, F>, r: Run<Interp<D, F>, D>, s: Host<D, F>, u: Host<D, F>)
    requires Leads(e, s, Going(u)) && Simulated(e, r, u)
    ensures Simulated(e, r, s)
  {
    hide Leads, Sim;
    match r
    case Going(i) =>
      var t :| Sim(e, i, t) && Leads(e, u, Going(t));
      LeadsOn(e, s, u, Going(t));
    case Done(v, due, previous, data) =>
      LeadsOn(e, s, u, Done(v, due, previous, Left(e.m, v, data)));
  }

  lemma SimulateExit<D(!new), F(!new)>(e: Jit<D, F>, i: Interp<D, F>, s: Host<D, F>, off: nat)
    requires Ready(e, i, s, off) && e.p[i.pc].Exit?
    ensures Simulated(e, Interpret(e.p, e.m, e.maxDepth, i), s)
  {
    hide Leads, IsCompiled, Execute, StackMatches, Interpret;
    Ops(e, i.pc, off);
    InterpretsExit(e.p, e.m, e.maxDepth, i);
    var r := Interpret(e.p, e.m, e.maxDepth, i);
    var a := Validates(e, i, s, off);
    var b := a.(op := off + 3, meter := i.previous - i.due - 1, scratch := Scrap(e, a));
    DoesAdd(e, a, 0 - i.pc - 1);
    if i.frames == [] {
      var stop := Done(r.verdict, r.due, r.previous, Left(e.m, r.verdict, r.data));
      DoesExit(e, b);
      OneStep(e, b, stop);
      StepOn(e, a, b, stop);
      LeadsOn(e, s, a, stop);
    } else {
      var k := |i.frames| - 1;
      var t := Returns(e, i, b);
      PopMatches(e.p, e.code, i.frames, b.stack);
      assert Sim(e, r.state, t);
      hide Sim, Ready;
      StepOn(e, a, b, Going(t));
      LeadsOn(e, s, a, Going(t));
      Simulates(e, r.state, s, t);
    }
  }

  lemma PopMatches<F>(p: seq<Insn>, code: seq<seq<Op>>, frames: seq<Frame<F>>, stack: seq<Slot<F>>)
    requires StackMatches(p, code, frames, stack) && frames != []
    ensures StackMatches(p, code, frames[..|frames| - 1], stack[..2 * (|frames| - 1)])
  {
    hide SlotMatches;
    var f, t := frames[..|frames| - 1], stack[..2 * (|frames| - 1)];
    forall k | 0 <= k < |f| ensures SlotMatches(p, code, f[k], t[2 * k], t[2 * k + 1]) {
      assert SlotMatches(p, code, frames[k], stack[2 * k], stack[2 * k + 1]);
    }
  }

  /** A return undoes the profiling at the call and restores the caller's registers. */
  lemma Returns<D(!new), F(!new)>(e: Jit<D, F>, i: Interp<D, F>, b: Host<D, F>) returns (t: Host<D, F>)
    requires b.pc < |e.code| && b.op < |e.code[b.pc]| && e.code[b.pc][b.op] == ExitOrReturn
    requires i.frames != [] && b.depth == |i.frames| && StackMatches(e.p, e.code, i.frames, b.stack)
    requires b.meter + |e.p| < WORD
    ensures var k := |i.frames| - 1;
      && t == b.(pc := i.frames[k].target, op := 0, meter := b.meter + i.frames[k].target, depth := k,
                 scratch := t.scratch, stack := b.stack[..2 * k], data := e.m.restore(b.data, i.frames[k].saved))
      && Leads(e, b, Going(t)) && i.frames[k].target <= |e.p|
      && (i.frames[k].target < |e.p| && WellFormed(e.p) ==> !e.p[i.frames[k].target].Half?)
  {
    hide Leads;
    var k := |i.frames| - 1;
    assert SlotMatches(e.p, e.code, i.frames[k], b.stack[2 * k], b.stack[2 * k + 1]);
    var back, frame := b.stack[2 * k + 1], i.frames[k];
    var c := b.(depth := k, stack := b.stack[..2 * k + 1], pc := back.pc, op := back.op);
    var d := c.(op := back.op + 1, meter := b.meter + back.pc + 1, scratch := Scrap(e, c));
    var f := d.(op := back.op + 2, stack := b.stack[..2 * k], data := e.m.restore(b.data, frame.saved));
    t := f.(pc := back.pc + 1, op := 0);
    assert c.stack[..2 * k] == b.stack[..2 * k];
    hide Execute, StackMatches;
    DoesReturn(e, b);
    DoesAdd(e, c, back.pc + 1);
    DoesRestore(e, d);
    DoesEnd(e, f);
    OneStep(e, f, Going(t));
    StepOn(e, d, f, Going(t));
    StepOn(e, c, d, Going(t));
    StepOn(e, b, c, Going(t));
  }

  lemma SimulateUnsupported<D(!new), F(!new)>(e: Jit<D, F>, i: Interp<D, F>, s: Host<D, F>, off: nat)
    requires Ready(e, i, s, off) && (e.p[i.pc].Half? || e.p[i.pc].Unresolved?)
    ensures Simulated(e, Interpret(e.p, e.m, e.maxDepth, i), s)
  {
    hide Leads, IsCompiled, StackMatches, WellFormed;
    Ops(e, i.pc, off);
    var r := Interpret(e.p, e.m, e.maxDepth, i);
    var stop := Done(r.verdict, r.due, r.previous, Left(e.m, r.verdict, r.data));
    hide Execute;
    if e.p[i.pc].Half? {
      DoesThrow(e, s, UnsupportedInstruction, i.due + 1);
      OneStep(e, s, stop);
    } else {
      var a := s.(op := off + 1, scratch := s.pc);
      DoesLoad(e, s, s.pc);
      DoesThrow(e, a, UnsupportedInstruction, i.due + 1);
      OneStep(e, a, stop);
      StepOn(e, s, a, stop);
    }
  }

  /** Running past the last instruction ends in the bumper. */
  lemma SimulateOverrun<D(!new), F(!new)>(e: Jit<D, F>, i: Interp<D, F>, s: Host<D, F>)
    requires IsCompiled(e.p, e.code) && Sim(e, i, s) && i.due < i.previous && i.pc == |e.p|
    ensures Simulated(e, Interpret(e.p, e.m, e.maxDepth, i), s)
  {
    hide Leads, StackMatches;
    var r := Interpret(e.p, e.m, e.maxDepth, i);
    var stop := Done(r.verdict, r.due, r.previous, Left(e.m, r.verdict, r.data));
    var a := s.(op := 1, scratch := s.pc);
    var b := a.(op := 2);
    var c := b.(op := 3, scratch := Scrap(e, b));
    var d := c.(op := 4, scratch := s.pc);
    assert Execute(e, s) == Going(a) && Execute(e, a) == Going(b) && Execute(e, b) == Going(c)
           && Execute(e, c) == Going(d);
    assert Execute(e, d) == stop;
    hide Execute, Sim;
    OneStep(e, d, stop);
    StepOn(e, c, d, stop);
    StepOn(e, b, c, stop);
    StepOn(e, a, b, stop);
    StepOn(e, s, a, stop);
  }

  /** One instruction with budget left. */
  lemma SimulateInsn<D(!new), F(!new)>(e: Jit<D, F>, i: Interp<D, F>, s: Host<D, F>, off: nat)
    requires Ready(e, i, s, off)
    ensures Simulated(e, Interpret(e.p, e.m, e.maxDepth, i), s)
  {
    hide Ready, Interpret, Simulated;
    assert i.pc < |e.p| by { ReadyInProgram(e, i, s, off); }
    match e.p[i.pc]
    case Plain => SimulatePlain(e, i, s, off);
    case Wide => SimulateWide(e, i, s, off);
    case Half => SimulateUnsupported(e, i, s, off);
    case Jump(_) => SimulateJump(e, i, s, off);
    case Branch(_) => SimulateBranch(e, i, s, off);
    case CallTo(_) => SimulateCallTo(e, i, s, off);
    case CallRegister => SimulateCallRegister(e, i, s, off);
    case Syscall => SimulateSyscall(e, i, s, off);
    case SyscallAndCall(_) => SimulateSyscallAndCall(e, i, s, off);
    case Unresolved => SimulateUnsupported(e, i, s, off);
    case Exit => SimulateExit(e, i, s, off);
  }

  lemma ReadyInProgram<D(!new), F(!new)>(e: Jit<D, F>, i: Interp<D, F>, s: Host<D, F>, off: nat)
    requires Ready(e, i, s, off)
    ensures i.pc < |e.p|
  {
  }

  lemma SimulateStep<D(!new), F(!new)>(e: Jit<D, F>, i: Interp<D, F>, s: Host<D, F>)
    requires IsCompiled(e.p, e.code) && WellFormed(e.p) && Sane(e.m) && Sim(e, i, s) && i.due < i.previous
    ensures Simulated(e, Interpret(e.p, e.m, e.maxDepth, i), s)
  {
    hide Interpret, IsCompiled, WellFormed, Sane, Leads, StackMatches;
    if i.pc == |e.p| {
      SimulateOverrun(e, i, s);
    } else {
      var off, t := PassesCheckpoint(e, s);
      assert Ready(e, i, t, off);
      SimulateInsn(e, i, t, off);
      var r := Interpret(e.p, e.m, e.maxDepth, i);
      if t != s {
        ThenSimulated(e, r, s, t);
      }
    }
  }

  // ---------------------------------------------------------------- past the budget

  /** An instruction whose code neither validates the meter nor ends a linear run. */
  predicate Unchecked(code: seq<seq<Op>>, pc: nat) {
    pc < |code| && code[pc] == [Exec]
  }

  ghost predicate LeftExceeded<D, F>(r: Run<Host<D, F>, D>, previous: nat) {
    r.Done? && r.verdict == ExceededMaxInstructions && r.due == Trunc(W64, previous + 1) && r.previous == previous
  }

  /**
   Once the budget is used up, the compiled code can only execute further unchecked instructions in a
   row, two host operations each, and then leaves with ExceededMaxInstructions: before any jump,
   call, return or system call, and in place of any error of its own. `last` is where it leaves.
   */
  lemma {:induction false} LeavesExceeded<D(!new), F(!new)>(e: Jit<D, F>, s: Host<D, F>) returns (last: nat)
    requires IsCompiled(e.p, e.code) && WellFormed(e.p) && s.pc <= |e.p| && s.op == 0 && s.meter <= s.pc
    requires s.pc < |e.p| && e.p[s.pc].Half? ==> s.scratch == s.pc
    ensures s.pc <= last <= |e.p| && forall pc: nat :: s.pc <= pc < last ==> Unchecked(e.code, pc)
    ensures LeftExceeded(ExecuteFor(e, s, 2 * (last - s.pc) + 2), s.previous)
    decreases |e.p| - s.pc
  {
    hide IsCompiled, WellFormed, Execute, ExecuteFor, LeftExceeded;
    var pc := s.pc;
    last := pc;
    CodeSize(e.p, e.code);
    if pc < |e.p| && e.code[pc] == [Exec] && e.m.exec(pc, s.data).Ok? {
      var t := s.(pc := pc + 1, op := 0, data := e.m.exec(pc, s.data).value);
      UncheckedIsPlain(e.p, e.code, pc);
      NoHalfBehindPlain(e.p, pc);
      SkipsPlain(e, s);
      last := LeavesExceeded(e, t);
      ExecuteForAdds(e, s, 2, 2 * (last - t.pc) + 2, t);
    } else {
      LeavesHere(e, s);
    }
  }

  lemma CodeSize(p: seq<Insn>, code: seq<seq<Op>>)
    requires IsCompiled(p, code)
    ensures |code| == |p| + 1
  {
  }

  lemma UncheckedIsPlain(p: seq<Insn>, code: seq<seq<Op>>, pc: nat)
    requires IsCompiled(p, code) && pc < |p| && code[pc] == [Exec]
    ensures p[pc].Plain?
  {
    assert |ValidateAt(pc) + Emit(p[pc], pc)| > 1;
  }

  /** How the code of an instruction, or the bumper, can start. */
  lemma FirstOps(p: seq<Insn>, code: seq<seq<Op>>, pc: nat)
    requires IsCompiled(p, code) && pc <= |p|
    ensures code[pc] == [Exec] || (pc < |p| && p[pc].Half? && code[pc] == [Throw(UnsupportedInstruction)])
      || (|code[pc]| > 1 && code[pc][0] == LoadScratch(pc)
          && (code[pc][1] == Validate || code[pc][1] == Prologue || code[pc][1] == Throw(UnsupportedInstruction)))
  {
  }

  /** Two host operations take an unchecked instruction without an error. */
  lemma SkipsPlain<D, F>(e: Jit<D, F>, s: Host<D, F>)
    requires s.pc < |e.p| && s.pc < |e.code| && s.op == 0 && e.code[s.pc] == [Exec] && e.p[s.pc].Plain?
    requires e.m.exec(s.pc, s.data).Ok?
    ensures ExecuteFor(e, s, 2) == Going(s.(pc := s.pc + 1, op := 0, data := e.m.exec(s.pc, s.data).value))
  {
    var a := s.(op := 1, data := e.m.exec(s.pc, s.data).value);
    var t := a.(pc := s.pc + 1, op := 0);
    assert Execute(e, s) == Going(a) && Execute(e, a) == Going(t);
    hide Execute;
    assert ExecuteFor(e, t, 0) == Going(t);
    assert ExecuteFor(e, a, 1) == Going(t);
  }

  lemma NoHalfBehindPlain(p: seq<Insn>, pc: nat)
    requires WellFormed(p) && pc < |p| && !p[pc].Wide?
    ensures pc + 1 < |p| ==> !p[pc + 1].Half?
  {
    if pc + 1 < |p| {
      assert !p[pc + 1].Half?;
    }
  }

  /** Whatever the first operation at a place is that looks at the meter or fails, it leaves. */
  lemma LeavesBy<D, F>(e: Jit<D, F>, s: Host<D, F>)
    requires s.pc < |e.code| && s.op < |e.code[s.pc]| && s.meter <= s.pc && s.scratch == s.pc
    requires var op := e.code[s.pc][s.op];
      op == Validate || op == Prologue || op == Throw(UnsupportedInstruction)
    ensures LeftExceeded(Execute(e, s), s.previous)
  {
  }

  lemma LeavesByFault<D, F>(e: Jit<D, F>, s: Host<D, F>)
    requires s.pc < |e.code| && s.op < |e.code[s.pc]| && e.code[s.pc][s.op] == Exec && s.meter <= s.pc
    requires e.m.exec(s.pc, s.data).Err?
    ensures LeftExceeded(Execute(e, s), s.previous)
  {
  }

  lemma Loads<D, F>(e: Jit<D, F>, s: Host<D, F>)
    requires s.pc < |e.code| && s.op < |e.code[s.pc]| && e.code[s.pc][s.op] == LoadScratch(s.pc)
    ensures Execute(e, s) == Going(s.(scratch := s.pc, op := s.op + 1))
  {
  }

  lemma LeavesHere<D, F>(e: Jit<D, F>, s: Host<D, F>)
    requires IsCompiled(e.p, e.code) && s.pc <= |e.p| && s.op == 0 && s.meter <= s.pc
    requires s.pc < |e.p| && e.p[s.pc].Half? ==> s.scratch == s.pc
    requires |e.code| == |e.p| + 1
    requires !(s.pc < |e.p| && e.code[s.pc] == [Exec] && e.m.exec(s.pc, s.data).Ok?)
    ensures LeftExceeded(ExecuteFor(e, s, 2), s.previous)
  {
    hide IsCompiled, Execute, LeftExceeded;
    FirstOps(e.p, e.code, s.pc);
    if s.pc == |e.p| {
      BumperLoads(e.p, e.code);
    }
    if e.code[s.pc] == [Exec] {
      LeavesByFault(e, s);
      LeavesAtOnce(e, s);
    } else if |e.code[s.pc]| == 1 {
      LeavesBy(e, s);
      LeavesAtOnce(e, s);
    } else {
      var a := s.(op := 1, scratch := s.pc);
      Loads(e, s);
      LeavesBy(e, a);
      LeavesAtOnce(e, a);
      assert ExecuteFor(e, s, 2) == ExecuteFor(e, a, 1);
    }
  }

  lemma BumperLoads(p: seq<Insn>, code: seq<seq<Op>>)
    requires IsCompiled(p, code)
    ensures |code| == |p| + 1 && |code[|p|]| > 1
  {
  }

  lemma LeavesAtOnce<D, F>(e: Jit<D, F>, s: Host<D, F>)
    requires LeftExceeded(Execute(e, s), s.previous)
    ensures LeftExceeded(ExecuteFor(e, s, 1), s.previous) && LeftExceeded(ExecuteFor(e, s, 2), s.previous)
  {
    hide Execute;
  }

  // ---------------------------------------------------------------- the main results

  /** What the compiled code makes of an interpreter run of `k` steps from related states. */
  ghost predicate Refined<D(!new), F(!new)>(e: Jit<D, F>, r: Run<Interp<D, F>, D>, s: Host<D, F>, k: nat) {
    match r
    case Going(i) => exists l: nat, t :: l >= k && ExecuteFor(e, s, l) == Going(t) && Sim(e, i, t)
    case Done(v, due, previous, data) =>
      if v == ExceededMaxInstructions
      then due == previous && exists l: nat :: LeftExceeded(ExecuteFor(e, s, l), previous)
      else exists l: nat :: ExecuteFor(e, s, l) == Done(v, due, previous, Left(e.m, v, data))
  }

  /**
   Metering at branches refines metering at every step. As long as the interpreter runs, the compiled
   code reaches a state where meter minus pc is the interpreter's remaining budget. When the
   interpreter stops, the compiled code stops with the same verdict and, unless the budget was
   exceeded, with the same outstanding count and with the interpreter's data, to which `raise` was
   applied if compiled code sets the kind of the error.
   */
  lemma {:induction false} MeterRefines<D(!new), F(!new)>(e: Jit<D, F>, i: Interp<D, F>, s: Host<D, F>, k: nat)
    requires IsCompiled(e.p, e.code) && WellFormed(e.p) && Sane(e.m) && Sim(e, i, s)
    ensures Refined(e, InterpretFor(e.p, e.m, e.maxDepth, i, k), s, k)
    decreases k
  {
    hide IsCompiled, WellFormed, Sane, Sim, Execute, ExecuteFor, Interpret, LeftExceeded;
    if k == 0 {
      NoSteps(e, s);
    } else if i.due >= i.previous {
      StopsExceeded(e, i, s, k);
    } else {
      SimulateStep(e, i, s);
      var r := Interpret(e.p, e.m, e.maxDepth, i);
      NeverExceeded(e, i);
      if r.Going? {
        var t :| Sim(e, r.state, t) && Leads(e, s, Going(t));
        var l: nat :| l > 0 && ExecuteFor(e, s, l) == Going(t);
        MeterRefines(e, r.state, t, k - 1);
        Extends(e, InterpretFor(e.p, e.m, e.maxDepth, r.state, k - 1), s, t, l, k - 1);
      }
    }
  }

  lemma NoSteps<D, F>(e: Jit<D, F>, s: Host<D, F>)
    ensures ExecuteFor(e, s, 0) == Going(s)
  {
  }

  lemma StopsExceeded<D(!new), F(!new)>(e: Jit<D, F>, i: Interp<D, F>, s: Host<D, F>, k: nat)
    requires IsCompiled(e.p, e.code) && WellFormed(e.p) && Sim(e, i, s) && i.due >= i.previous && k > 0
    ensures Refined(e, InterpretFor(e.p, e.m, e.maxDepth, i, k), s, k)
  {
    hide IsCompiled, WellFormed, StackMatches, Execute, ExecuteFor, LeftExceeded;
    var last := LeavesExceeded(e, s);
    assert LeftExceeded(ExecuteFor(e, s, 2 * (last - s.pc) + 2), i.previous);
  }

  lemma NeverExceeded<D, F>(e: Jit<D, F>, i: Interp<D, F>)
    requires i.due < i.previous
    ensures var r := Interpret(e.p, e.m, e.maxDepth, i); r.Done? ==> r.verdict != ExceededMaxInstructions
  {
  }

  lemma Extends<D(!new), F(!new)>(e: Jit<D, F>, r: Run<Interp<D, F>, D>, s: Host<D, F>, t: Host<D, F>, l: nat, k: nat)
    requires l > 0 && ExecuteFor(e, s, l) == Going(t) && Refined(e, r, t, k)
    ensures Refined(e, r, s, k + 1)
  {
    hide Execute, ExecuteFor, Sim;
    match r
    case Going(i) =>
      var n: nat, u :| n >= k && ExecuteFor(e, t, n) == Going(u) && Sim(e, i, u);
      ExecuteForAdds(e, s, l, n, t);
      assert ExecuteFor(e, s, l + n) == Going(u);
    case Done(v, due, previous, data) =>
      if v == ExceededMaxInstructions {
        var n: nat :| LeftExceeded(ExecuteFor(e, t, n), previous);
        ExecuteForAdds(e, s, l, n, t);
        assert LeftExceeded(ExecuteFor(e, s, l + n), previous);
      } else {
        var n: nat :| ExecuteFor(e, t, n) == Done(v, due, previous, Left(e.m, v, data));
        ExecuteForAdds(e, s, l, n, t);
        assert ExecuteFor(e, s, l + n) == Done(v, due, previous, Left(e.m, v, data));
      }
  }

  /** Conversely, if the compiled code stops then the interpreter stops, with the same verdict. */
  lemma CompiledStopsLikeInterpreter<D(!new), F(!new)>(e: Jit<D, F>, i: Interp<D, F>, s: Host<D, F>, l: nat)
    requires IsCompiled(e.p, e.code) && WellFormed(e.p) && Sane(e.m) && Sim(e, i, s)
    requires ExecuteFor(e, s, l).Done?
    ensures var r, j := InterpretFor(e.p, e.m, e.maxDepth, i, l + 1), ExecuteFor(e, s, l);
      && r.Done? && r.verdict == j.verdict && r.previous == j.previous
      && (if r.verdict == ExceededMaxInstructions then r.due == r.previous && j.due == Trunc(W64, r.previous + 1)
          else r.due == j.due && j.data == Left(e.m, r.verdict, r.data))
  {
    hide IsCompiled, WellFormed, Sane, Sim, Execute, Interpret, ExecuteFor;
    MeterRefines(e, i, s, l + 1);
    var r := InterpretFor(e.p, e.m, e.maxDepth, i, l + 1);
    match r
    case Going(i') =>
      var n: nat, u :| n >= l + 1 && ExecuteFor(e, s, n) == Going(u) && Sim(e, i', u);
      StaysDone(e, s, l, n);
      assert false;
    case Done(v, due, previous, data) =>
      if v == ExceededMaxInstructions {
        var n: nat :| LeftExceeded(ExecuteFor(e, s, n), previous);
        DoneOnce(e, s, l, n);
      } else {
        var n: nat :| ExecuteFor(e, s, n) == Done(v, due, previous, Left(e.m, v, data));
        DoneOnce(e, s, l, n);
      }
  }

  lemma {:induction false} StaysDone<D, F>(e: Jit<D, F>, s: Host<D, F>, l: nat, n: nat)
    requires ExecuteFor(e, s, l).Done? && n >= l
    ensures ExecuteFor(e, s, n) == ExecuteFor(e, s, l)
    decreases l
  {
    hide Execute;
    if l > 0 {
      var r := Execute(e, s);
      if r.Going? {
        StaysDone(e, r.state, l - 1, n - 1);
      }
    }
  }

  lemma DoneOnce<D, F>(e: Jit<D, F>, s: Host<D, F>, l: nat, n: nat)
    requires ExecuteFor(e, s, l).Done? && ExecuteFor(e, s, n).Done?
    ensures ExecuteFor(e, s, l) == ExecuteFor(e, s, n)
  {
    if n >= l {
      StaysDone(e, s, l, n);
    } else {
      StaysDone(e, s, n, l);
    }
  }

  /** Entering compiled code: the meter is the budget plus the entry pc. */
  function Invoke<D, F>(budget: nat, entry: nat, data: D): Host<D, F> {
    Host(entry, 0, Trunc(W64, budget + entry), entry, budget, 0, [], data)
  }

  lemma InvokeRelates<D, F>(e: Jit<D, F>, budget: nat, entry: nat, data: D)
    requires entry <= |e.p| && budget + |e.p| < WORD && e.maxDepth >= 1
    ensures Sim(e, Interp(entry, 0, budget, [], data), Invoke(budget, entry, data))
  {
  }

  // ---------------------------------------------------------------- the compiler's loop

  /** No linear run of unchecked instructions is longer than `distance`. */
  ghost predicate CheckedEvery(code: seq<seq<Op>>, n: nat, distance: nat) {
    forall a: nat, b: nat :: a <= b < n && UncheckedRun(code, a, b) ==> b - a < distance
  }

  ghost predicate UncheckedRun(code: seq<seq<Op>>, a: nat, b: nat) {
    forall pc: nat :: a <= pc <= b ==> Unchecked(code, pc)
  }

  lemma CheckedOneMore(code: seq<seq<Op>>, ops: seq<Op>, last: nat, distance: nat)
    requires CheckedEvery(code, |code|, distance) && (last == 0 || (last < |code| && !Unchecked(code, last)))
    requires ops == [Exec] ==> |code| < last + distance
    ensures CheckedEvery(code + [ops], |code| + 1, distance)
  {
    var more, n := code + [ops], |code|;
    forall a: nat, b: nat | a <= b < n + 1 && UncheckedRun(more, a, b) ensures b - a < distance {
      if b == n {
        assert Unchecked(more, n);
        assert last == 0 || last < a by {
          assert a <= last ==> Unchecked(more, last);
        }
      } else {
        forall pc: nat | a <= pc <= b ensures Unchecked(code, pc) {
          assert Unchecked(more, pc);
        }
        assert UncheckedRun(code, a, b);
      }
    }
  }

  /** Whether emitting the instruction moves the pc of the last validation. */
  predicate Validated(insn: Insn) {
    insn.Wide? || insn.Jump? || insn.Branch? || insn.CallTo? || insn.CallRegister? || insn.Syscall?
    || insn.SyscallAndCall? || insn.Exit?
  }

  ghost predicate CompiledUpTo(p: seq<Insn>, code: seq<seq<Op>>, pc: nat) {
    && pc <= |p| && |code| == pc
    && forall q :: 0 <= q < pc ==> code[q] == Emit(p[q], q) || (!p[q].Half? && code[q] == ValidateAt(q) + Emit(p[q], q))
  }

  /** Emitting one slot, with or without a checkpoint. */
  lemma EmitsOne(p: seq<Insn>, code: seq<seq<Op>>, pc: nat, checkpoint: bool, last: nat, distance: nat)
    requires CompiledUpTo(p, code, pc) && pc < |p| && (p[pc].Half? ==> !checkpoint)
    requires CheckedEvery(code, pc, distance) && (last == 0 || (last < pc && !Unchecked(code, last)))
    requires checkpoint || pc < last + distance || !p[pc].Plain?
    ensures var more := code + [EmitChecked(p[pc], pc, checkpoint)];
      && CompiledUpTo(p, more, pc + 1) && CheckedEvery(more, pc + 1, distance)
      && (last == 0 || !Unchecked(more, last)) && (checkpoint || Validated(p[pc]) ==> !Unchecked(more, pc))
  {
    hide CheckedEvery;
    var ops := EmitChecked(p[pc], pc, checkpoint);
    assert ops == [Exec] ==> !checkpoint && p[pc].Plain? by {
      if checkpoint {
        assert ops[0] == LoadScratch(pc);
      }
    }
    CheckedOneMore(code, ops, last, distance);
  }

  /** Emits the code of the whole program, with a checkpoint wherever the last validation is `distance` slots back. */
  method Compile(p: seq<Insn>, distance: nat) returns (code: seq<seq<Op>>)
    requires WellFormed(p)
    ensures IsCompiled(p, code) && CheckedEvery(code, |p|, distance)
  {
    hide CheckedEvery, Emit, EmitChecked, Unchecked;
    code := [];
    var last: nat, pc: nat := 0, 0;
    assert CheckedEvery(code, 0, distance) by { NothingUnchecked(code, distance); }
    assert 0 < |p| ==> !p[0].Half?;
    while pc < |p|
      invariant CompiledUpTo(p, code, pc) && CheckedEvery(code, pc, distance)
      invariant pc < |p| ==> !p[pc].Half?
      invariant last == 0 || (last < pc && !Unchecked(code, last))
    {
      var checkpoint := last + distance <= pc;
      EmitsOne(p, code, pc, checkpoint, last, distance);
      code := code + [EmitChecked(p[pc], pc, checkpoint)];
      if checkpoint || Validated(p[pc]) {
        last := pc;
      }
      if p[pc].Wide? {
        NoHalfBehindWide(p, pc);
        assert p[pc + 1].Half?;
        EmitsOne(p, code, pc + 1, false, last, distance);
        code := code + [EmitChecked(p[pc + 1], pc + 1, false)];
        pc := pc + 2;
      } else {
        NoHalfBehindPlain(p, pc);
        pc := pc + 1;
      }
    }
    CheckedBumper(code, last, distance);
    code := code + [Bumper(|p|)];
  }

  lemma NothingUnchecked(code: seq<seq<Op>>, distance: nat)
    ensures CheckedEvery(code, 0, distance)
  {
  }

  lemma CheckedBumper(code: seq<seq<Op>>, last: nat, distance: nat)
    requires CheckedEvery(code, |code|, distance) && (last == 0 || (last < |code| && !Unchecked(code, last)))
    ensures CheckedEvery(code + [Bumper(|code|)], |code|, distance)
  {
    CheckedOneMore(code, Bumper(|code|), last, distance);
  }

  /** So a run past its budget leaves after at most `distance` further instructions. */
  lemma OvershootIsBounded<D(!new), F(!new)>(e: Jit<D, F>, s: Host<D, F>, distance: nat)
    requires IsCompiled(e.p, e.code) && WellFormed(e.p) && s.pc <= |e.p| && s.op == 0 && s.meter <= s.pc
    requires s.pc < |e.p| && e.p[s.pc].Half? ==> s.scratch == s.pc
    requires CheckedEvery(e.code, |e.p|, distance)
    ensures LeftExceeded(ExecuteFor(e, s, 2 * distance + 2), s.previous)
  {
    hide IsCompiled, WellFormed, ExecuteFor;
    var last := LeavesExceeded(e, s);
    if last > s.pc {
      assert UncheckedRun(e.code, s.pc, last - 1);
    }
    StaysDone(e, s, 2 * (last - s.pc) + 2, 2 * distance + 2);
  }
}
