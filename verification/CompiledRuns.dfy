/**
 The meter of compiled code against the interpreter itself: every accepted program is an instance of the abstract guest
 of the meter proof, so its compiled code counts as its interpreted runs do.
 */
module CompiledRuns {
  import opened Options
  import opened Words
  import opened Arithmetic
  import opened Instructions
  import opened Verifier
  import opened Interpreter
  import opened Runs
  import M = JitMeter

  /** The registers without the pc, and the host. */
  datatype Data<+H> = Data(reg: seq<u64>, host: H)

  /** What a call keeps. */
  datatype Saved = Saved(r6: u64, r7: u64, r8: u64, r9: u64, framePointer: u64)

  // ---------------------------------------------------------------- the program as an abstract guest

  function Kind<H>(e: Executable<H>, pc: nat): M.Insn
    requires InProgram(e.program, pc)
  {
    var insn := Fetch(e.program, pc);
    match Decode(e.version, insn.opc)
    case Unknown => M.Half
    case Lddw => M.Wide
    case Jump(condition, _, _) =>
      var target := pc + 1 + insn.off;
      if target < 0 then M.Half else if condition == Always then M.Jump(target) else M.Branch(target)
    case CallReg => M.CallRegister
    case CallImm =>
      var builtin := BuiltinKey(e, insn).Some?;
      (match CallTarget(e, insn, pc)
       case Some(target) =>
         if target < 0 then M.Half else if builtin then M.SyscallAndCall(target) else M.CallTo(target)
       case None => if builtin then M.Syscall else M.Unresolved)
    case Exit => M.Exit
    case _ => M.Plain
  }

  function Guest<H>(e: Executable<H>): (p: seq<M.Insn>)
    ensures |p| == Count(e.program)
  {
    seq(Count(e.program), pc requires 0 <= pc < Count(e.program) => Kind(e, pc))
  }

  /** A state with the given data, for an instruction that does not look at the rest. */
  function StateOf<H>(e: Executable<H>, pc: u64, d: Data<H>): State<H>
    requires |d.reg| == 11
  {
    State(d.reg + [pc], seq(e.config.maxCallDepth, _ => Frame(0, 0, 0, 0, 0, 0)), 0, 0, 0, 0, d.host)
  }

  ghost predicate Performable<H>(e: Executable<H>, pc: nat, d: Data<H>) {
    Runnable(e) && InProgram(e.program, pc) && |d.reg| == 11
  }

  /** Errors as the abstract guest knows them. */
  function Code(f: Fault): nat {
    match f
    case ExceededMaxInstructions => 0
    case ExecutionOverrun => 1
    case CallDepthExceeded => 2
    case CallOutsideTextSegment => 3
    case DivideByZero => 4
    case DivideOverflow => 5
    case InvalidInstruction => 6
    case UnsupportedInstruction => 7
    case Foreign(code) => code + 8
  }

  /** The error with a code. */
  function ErrorOf(code: nat): Fault {
    if code == 0 then ExceededMaxInstructions
    else if code == 1 then ExecutionOverrun
    else if code == 2 then CallDepthExceeded
    else if code == 3 then CallOutsideTextSegment
    else if code == 4 then DivideByZero
    else if code == 5 then DivideOverflow
    else if code == 6 then InvalidInstruction
    else if code == 7 then UnsupportedInstruction
    else Foreign(code - 8)
  }

  lemma CodeRoundTrip(f: Fault)
    ensures ErrorOf(Code(f)) == f
  {
  }

  /** Memory accesses report their errors themselves; a computation leaves that to compiled code. */
  predicate OwnError(op: Op) {
    !op.Load? && !op.Store?
  }

  ghost function Exec<H>(e: Executable<H>, pc: nat, d: Data<H>): Result<Data<H>, M.Failure<Data<H>>> {
    if !Performable(e, pc, d) then Err(M.Failure(0, false, d))
    else
      AcceptedIsSafe(e.program, e.version, pc);
      match Perform(e, StateOf(e, pc, d), Fetch(e.program, pc))
      case More(t) => if |t.reg| == 12 then Ok(Data(t.reg[..11], t.host)) else Err(M.Failure(0, false, d))
      case Halt(t, r) =>
        var left := if |t.reg| == 12 then Data(t.reg[..11], t.host) else d;
        Err(M.Failure(if r.Err? then Code(r.error) else 0, OwnError(Decode(e.version, Fetch(e.program, pc).opc)), left))
  }

  ghost function Wide<H>(e: Executable<H>, pc: nat, d: Data<H>): Data<H> {
    if Performable(e, pc, d) && InProgram(e.program, pc + 1) && Fetch(e.program, pc).dst < 11
    then d.(reg := d.reg[Fetch(e.program, pc).dst := WideImmediate(e.program, pc)]) else d
  }

  ghost predicate Taken<H>(e: Executable<H>, pc: nat, d: Data<H>) {
    Performable(e, pc, d)
    && var insn := Fetch(e.program, pc); var op := Decode(e.version, insn.opc);
    && op.Jump? && insn.dst < 11 && insn.src < 11
    && Holds(op.condition, op.w, d.reg[insn.dst], Operand(op.source, insn.imm, d.reg[insn.src]))
  }

  ghost function Callee<H>(e: Executable<H>, pc: nat, d: Data<H>): nat {
    if Performable(e, pc, d) && 0 <= CallRegister(Fetch(e.program, pc), e.version) < 10
    then Trunc(W64, d.reg[CallRegister(Fetch(e.program, pc), e.version)] - e.vmAddr) / INSN_SIZE else 0
  }

  function Save<H>(d: Data<H>): Saved {
    if |d.reg| == 11 then Saved(d.reg[6], d.reg[7], d.reg[8], d.reg[9], d.reg[10]) else Saved(0, 0, 0, 0, 0)
  }

  function EnterData<H>(e: Executable<H>, d: Data<H>): Data<H> {
    if |d.reg| == 11 && !ManualStackFrameBump(e.version)
      then d.(reg := d.reg[10 := Trunc(W64, d.reg[10] + Stride(e))]) else d
  }

  function RestoreData<H>(d: Data<H>, f: Saved): Data<H> {
    if |d.reg| == 11 then d.(reg := d.reg[10 := f.framePointer][6 := f.r6][7 := f.r7][8 := f.r8][9 := f.r9]) else d
  }

  ghost function Syscall<H>(e: Executable<H>, pc: nat, d: Data<H>, left: nat)
    : (Result<Data<H>, M.Failure<Data<H>>>, nat)
  {
    if Performable(e, pc, d) && left <= MAX && BuiltinKey(e, Fetch(e.program, pc)).Some? then
      var (result, host, rest) := e.call(BuiltinKey(e, Fetch(e.program, pc)).value, d.host, d.reg[1..6], left);
      match result
      case Ok(value) => (Ok(Data(d.reg[0 := value], host)), rest)
      case Err(fault) => (Err(M.Failure(Code(fault), false, d.(host := host))), rest)
    else (Err(M.Failure(0, false, d)), 0)
  }

  /** Setting the kind of an error puts the address of the result slot into the register that holds r0. */
  function RaiseData<H>(slot: u64, d: Data<H>): Data<H> {
    if |d.reg| == 11 then d.(reg := d.reg[0 := slot]) else d
  }

  ghost function Effects<H>(e: Executable<H>, slot: u64): M.Guest<Data<H>, Saved> {
    M.Guest(
      (pc, d) => Exec(e, pc, d), (pc, d) => Wide(e, pc, d), (pc, d) => Taken(e, pc, d), (pc, d) => Callee(e, pc, d),
      (d: Data<H>) => Save(d), (d: Data<H>) => EnterData(e, d), (d: Data<H>, f: Saved) => RestoreData(d, f),
      (pc, d, left) => Syscall(e, pc, d, left), (d: Data<H>) => RaiseData(slot, d))
  }

  // ---------------------------------------------------------------- related states

  function FrameOf(f: Frame): M.Frame<Saved> {
    M.Frame(f.targetPc, Saved(f.r6, f.r7, f.r8, f.r9, f.framePointer))
  }

  /** The interpreter's state as the meter proof sees it. */
  function View<H>(s: State<H>): M.Interp<Data<H>, Saved>
    requires |s.reg| == 12 && s.depth <= |s.frames|
  {
    M.Interp(s.reg[PC], s.due, s.previous, seq(s.depth, k requires 0 <= k < s.depth => FrameOf(s.frames[k])),
      Data(s.reg[..11], s.host))
  }

  /** Guest functions start inside of the program. */
  ghost predicate Registered<H>(e: Executable<H>) {
    forall key :: key in e.functions ==> InProgram(e.program, e.functions[key])
  }

  /** The verdict of the abstract guest names the result, down to the returned value and the error. */
  ghost predicate SameVerdict<H>(v: M.Verdict, d: Data<H>, r: Result<u64, Fault>) {
    match v
    case Success => |d.reg| == 11 && r == Ok(d.reg[0])
    case ExceededMaxInstructions => r == Err(ExceededMaxInstructions)
    case ExecutionOverrun => r == Err(ExecutionOverrun)
    case CallDepthExceeded => r == Err(CallDepthExceeded)
    case CallOutsideTextSegment => r == Err(CallOutsideTextSegment)
    case UnsupportedInstruction => r == Err(UnsupportedInstruction)
    case Raised(code) => r == Err(ErrorOf(code)) && !r.error.Foreign?
    case Fault(code) => r == Err(ErrorOf(code))
    case SyscallError(code) => r == Err(ErrorOf(code))
  }

  /** One outcome is the other's view. */
  ghost predicate Linked<H>(o: Outcome<H>, r: M.Run<M.Interp<Data<H>, Saved>, Data<H>>) {
    match o
    case More(t) => |t.reg| == 12 && t.depth <= |t.frames| && r == M.Going(View(t))
    case Halt(t, result) =>
      && r.Done? && r.due == t.due && r.previous == t.previous
      && |t.reg| == 12 && r.data == Data(t.reg[..11], t.host) && SameVerdict(r.verdict, r.data, result)
  }

  // ---------------------------------------------------------------- one step

  function Interpreted<H>(p: seq<M.Insn>, m: M.Guest<Data<H>, Saved>, depth: nat,
                          s: State<H>): M.Run<M.Interp<Data<H>, Saved>, Data<H>>
    requires |s.reg| == 12 && s.depth <= |s.frames|
  {
    M.Interpret(p, m, depth, View(s))
  }

  /** A state in which an instruction of the program is performed within the budget. */
  ghost predicate Performing<H>(e: Executable<H>, s: State<H>) {
    Runnable(e) && Interpreter.Sane(e, s) && s.due < s.previous && InProgram(e.program, s.reg[PC])
  }

  /** What the step does, once the meter has counted it. */
  ghost function Performed<H>(e: Executable<H>, s: State<H>): Outcome<H>
    requires Performing(e, s)
  {
    AcceptedIsSafe(e.program, e.version, s.reg[PC]);
    Perform(e, s.(due := s.due + 1), Fetch(e.program, s.reg[PC]))
  }

  lemma SameData<H>(e: Executable<H>, s: State<H>)
    requires |s.reg| == 12
    ensures s.reg[..11] + [s.reg[PC]] == s.reg
  {
  }

  /** Putting a register other than the pc. */
  lemma ViewPut<H>(s: State<H>, r: nat, x: u64, pc: u64)
    requires |s.reg| == 12 && r < 11
    ensures s.reg[r := x][PC := pc][..11] == s.reg[..11][r := x]
    ensures s.reg[PC := pc][..11] == s.reg[..11]
  {
  }

  predicate IsPlain(op: Op) {
    op.Load? || op.Store? || IsCompute(op)
  }

  /** What a plain instruction does depends on registers and host only, and changes nothing else. */
  lemma PlainEffect<H(!new)>(e: Executable<H>, s: State<H>, t: State<H>, insn: Insn)
    requires Ready(e, s) && Ready(e, t) && s.reg == t.reg && s.host == t.host
    requires IsPlain(Decode(e.version, insn.opc)) && Safe(e.program, e.version, insn, s.reg[PC])
    ensures var a, b := Perform(e, s, insn), Perform(e, t, insn);
      match a
      case More(u) =>
        && b.More? && b.state.reg == u.reg && b.state.host == u.host && |u.reg| == 12 && u.reg[PC] == s.reg[PC] + 1
        && u == s.(reg := u.reg, host := u.host)
      case Halt(u, r) =>
        && b.Halt? && b.state.reg == u.reg && b.state.host == u.host && b.result == r && r.Err?
        && (OwnError(Decode(e.version, insn.opc)) ==> !r.error.Foreign?)
        && u == s.(host := u.host)
  {
    hide Decode, Holds, WideImmediate, Fetch, Operand, Narrow, Address, Enter, Call, Leave, Alu, Pqr, Shift, Trunc;
  }

  /** What the abstract guest makes of a plain instruction. */
  lemma ExecIsPerform<H(!new)>(e: Executable<H>, slot: u64, s: State<H>)
    requires Performing(e, s) && IsPlain(Decode(e.version, Fetch(e.program, s.reg[PC]).opc))
    ensures var pc, insn := s.reg[PC], Fetch(e.program, s.reg[PC]);
      var r := Effects(e, slot).exec(pc, Data(s.reg[..11], s.host));
      match Performed(e, s)
      case More(u) =>
        && |u.reg| == 12 && u.reg[PC] == pc + 1 && u == s.(due := s.due + 1, reg := u.reg, host := u.host)
        && r == Ok(Data(u.reg[..11], u.host))
      case Halt(u, result) =>
        && u == s.(due := s.due + 1, host := u.host) && result.Err?
        && r == Err(M.Failure(Code(result.error), OwnError(Decode(e.version, insn.opc)), Data(s.reg[..11], u.host)))
        && (OwnError(Decode(e.version, insn.opc)) ==> !result.error.Foreign?)
  {
    hide Decode, Fetch, Perform, Safe, Accepted;
    var pc: nat := s.reg[PC];
    var d := Data(s.reg[..11], s.host);
    AcceptedIsSafe(e.program, e.version, pc);
    SameData(e, s);
    PlainEffect(e, s.(due := s.due + 1), StateOf(e, pc, d), Fetch(e.program, pc));
  }

  lemma PlainLinked<H(!new)>(e: Executable<H>, slot: u64, s: State<H>)
    requires Performing(e, s) && IsPlain(Decode(e.version, Fetch(e.program, s.reg[PC]).opc))
    ensures Linked(Performed(e, s), Interpreted(Guest(e), Effects(e, slot), e.config.maxCallDepth, s))
  {
    hide Decode, Fetch, Accepted, Performed, Effects, M.Interpret, IsPlain, Code, ErrorOf;
    assert Guest(e)[s.reg[PC]] == M.Plain by { PlainKind(e, s.reg[PC]); }
    hide Guest;
    GuestSize(e);
    ExecIsPerform(e, slot, s);
    M.InterpretsPlain(Guest(e), Effects(e, slot), e.config.maxCallDepth, View(s));
    var o := Performed(e, s);
    if o.Halt? {
      CodeRoundTrip(o.result.error);
    }
  }

  lemma PlainKind<H>(e: Executable<H>, pc: nat)
    requires InProgram(e.program, pc) && IsPlain(Decode(e.version, Fetch(e.program, pc).opc))
    ensures pc < |Guest(e)| && Guest(e)[pc] == M.Plain
  {
    hide Decode, Fetch;
  }

  lemma WideLinked<H(!new)>(e: Executable<H>, slot: u64, s: State<H>)
    requires Performing(e, s) && Decode(e.version, Fetch(e.program, s.reg[PC]).opc).Lddw?
    ensures Linked(Performed(e, s), Interpreted(Guest(e), Effects(e, slot), e.config.maxCallDepth, s))
  {
    hide Decode, Fetch, Accepted, WideImmediate;
    var pc: nat := s.reg[PC];
    AcceptedIsSafe(e.program, e.version, pc);
    SafeOrUnknown(e, pc);
    assert Guest(e)[pc] == M.Wide;
    ViewPut(s, Fetch(e.program, pc).dst, WideImmediate(e.program, pc), pc + 2);
  }

  lemma HalfLinked<H(!new)>(e: Executable<H>, slot: u64, s: State<H>)
    requires Performing(e, s) && Decode(e.version, Fetch(e.program, s.reg[PC]).opc).Unknown?
    ensures Linked(Performed(e, s), Interpreted(Guest(e), Effects(e, slot), e.config.maxCallDepth, s))
  {
    hide Decode, Fetch, Accepted, Safe;
    AcceptedIsSafe(e.program, e.version, s.reg[PC]);
    assert Guest(e)[s.reg[PC]] == M.Half;
  }

  lemma AlwaysHolds(w: Width, a: u64, b: u64)
    ensures Holds(Always, w, a, b)
  {
  }

  /** What the guest program has at a jump, and when it is taken. */
  lemma JumpKind<H>(e: Executable<H>, slot: u64, pc: nat, d: Data<H>)
    requires Runnable(e) && InProgram(e.program, pc) && |d.reg| == 11
    requires Decode(e.version, Fetch(e.program, pc).opc).Jump?
    ensures var insn := Fetch(e.program, pc); var op := Decode(e.version, insn.opc); var p := Guest(e);
      && insn.dst < 11 && insn.src < 11 && 0 <= pc + 1 + insn.off < Count(e.program)
      && pc < |p| && (p[pc].Jump? || p[pc].Branch?) && p[pc].target == pc + 1 + insn.off
      && (p[pc].Jump? || Effects(e, slot).taken(pc, d) <==>
            Holds(op.condition, op.w, d.reg[insn.dst], Operand(op.source, insn.imm, d.reg[insn.src])))
  {
    hide Decode, Fetch, Accepted, Holds, Operand, Perform;
    SafeOrUnknown(e, pc);
    var insn := Fetch(e.program, pc);
    var op := Decode(e.version, insn.opc);
    assert Guest(e)[pc] == Kind(e, pc);
    AlwaysHolds(op.w, d.reg[insn.dst], Operand(op.source, insn.imm, d.reg[insn.src]));
  }

  lemma PerformJump<H>(e: Executable<H>, s: State<H>, insn: Insn)
    requires Ready(e, s) && Decode(e.version, insn.opc).Jump? && Safe(e.program, e.version, insn, s.reg[PC])
    ensures insn.dst < 11 && insn.src < 11 && 0 <= s.reg[PC] + 1 + insn.off <= MAX
    ensures var op := Decode(e.version, insn.opc);
      var taken := Holds(op.condition, op.w, s.reg[insn.dst], Operand(op.source, insn.imm, s.reg[insn.src]));
      Perform(e, s, insn) == More(GoTo(s, if taken then s.reg[PC] + 1 + insn.off else s.reg[PC] + 1))
  {
    hide Decode, Holds, Operand, Enter, Call, Leave, Compute, WideImmediate, Address, Narrow, Fetch, Trunc,
         EndianResult, CallRegister, IsDivision;
  }

  lemma JumpLinked<H(!new)>(e: Executable<H>, slot: u64, s: State<H>)
    requires Performing(e, s) && Decode(e.version, Fetch(e.program, s.reg[PC]).opc).Jump?
    ensures Linked(Performed(e, s), Interpreted(Guest(e), Effects(e, slot), e.config.maxCallDepth, s))
  {
    hide Decode, Fetch, Accepted, Holds, Operand, Perform, Guest, Effects, M.Interpret, Safe, GoTo;
    var pc: nat := s.reg[PC];
    var t := s.(due := s.due + 1);
    AcceptedIsSafe(e.program, e.version, pc);
    JumpKind(e, slot, pc, Data(s.reg[..11], s.host));
    PerformJump(e, t, Fetch(e.program, pc));
    M.InterpretsJump(Guest(e), Effects(e, slot), e.config.maxCallDepth, View(s));
    ViewGoesOn(t, pc + 1);
    ViewGoesOn(t, pc + 1 + Fetch(e.program, pc).off);
  }

  lemma SafeOrUnknown<H>(e: Executable<H>, pc: nat)
    requires Runnable(e) && InProgram(e.program, pc)
    ensures var insn := Fetch(e.program, pc);
      Safe(e.program, e.version, insn, pc) || Decode(e.version, insn.opc) == Unknown
  {
    hide Decode, Fetch, Accepted, Safe;
    AcceptedIsSafe(e.program, e.version, pc);
  }

  /** The frames of a state after a push or a pop, as the meter proof sees them. */
  lemma ViewPushed<H>(e: Executable<H>, slot: u64, s: State<H>, pc: u64)
    requires |s.reg| == 12 && s.depth < |s.frames| && s.reg[PC] < MAX
    ensures var t := GoTo(Bumped(e, Pushed(s)), pc);
      && |t.reg| == 12 && t.depth <= |t.frames|
      && View(t) == M.PushFrame(Effects(e, slot), View(s), pc)
  {
    hide Trunc, Stride;
    var t := GoTo(Bumped(e, Pushed(s)), pc);
    var v := View(s);
    assert View(t).frames == v.frames + [FrameOf(t.frames[s.depth])];
    assert View(t).data == EnterData(e, v.data) by {
      ViewPut(s, 10, Trunc(W64, s.reg[10] + Stride(e)), pc);
      ViewPut(s, 0, 0, pc);
    }
  }

  lemma EnterLinked<H>(e: Executable<H>, slot: u64, s: State<H>, target: int)
    requires Ready(e, s)
    ensures var o := Enter(e, s, target);
      if s.depth + 1 == e.config.maxCallDepth then
        && o.Halt? && o.result == Err(CallDepthExceeded) && o.state.due == s.due && o.state.previous == s.previous
        && o.state.reg == s.reg && o.state.host == s.host
      else if 0 <= target < Count(e.program) then
        && target <= MAX && o.More? && |o.state.reg| == 12 && o.state.depth <= |o.state.frames|
        && View(o.state) == M.PushFrame(Effects(e, slot), View(s), target)
      else
        && o.Halt? && o.result == Err(CallOutsideTextSegment) && o.state.due == s.due && o.state.previous == s.previous
        && |o.state.reg| == 12 && Data(o.state.reg[..11], o.state.host) == EnterData(e, View(s).data)
  {
    hide M.PushFrame, View, Effects;
    if s.depth + 1 != e.config.maxCallDepth {
      if 0 <= target < Count(e.program) {
        ViewPushed(e, slot, s, target);
      } else {
        BumpedData(e, s);
      }
    }
  }

  lemma BumpedData<H>(e: Executable<H>, s: State<H>)
    requires |s.reg| == 12 && s.depth < |s.frames| && s.reg[PC] < MAX
    ensures var t := Bumped(e, Pushed(s)); |t.reg| == 12 && Data(t.reg[..11], t.host) == EnterData(e, View(s).data)
  {
    hide Trunc, Stride;
    ViewPut(s, 10, Trunc(W64, s.reg[10] + Stride(e)), s.reg[PC]);
  }

  lemma CallRegisterLinked<H(!new)>(e: Executable<H>, slot: u64, s: State<H>)
    requires Performing(e, s) && Decode(e.version, Fetch(e.program, s.reg[PC]).opc).CallReg?
    ensures Linked(Performed(e, s), Interpreted(Guest(e), Effects(e, slot), e.config.maxCallDepth, s))
  {
    hide Decode, Fetch, Accepted, Enter, M.PushFrame, Trunc, M.Interpret, Call, Leave, Compute, WideImmediate, Address,
         Narrow, Holds, Operand, EndianResult;
    var pc: nat := s.reg[PC];
    var insn := Fetch(e.program, pc);
    var t := s.(due := s.due + 1);
    AcceptedIsSafe(e.program, e.version, pc);
    assert Guest(e)[pc] == M.CallRegister;
    M.InterpretsCallRegister(Guest(e), Effects(e, slot), e.config.maxCallDepth, View(s));
    SafeOrUnknown(e, pc);
    var target := Trunc(W64, s.reg[CallRegister(insn, e.version)] - e.vmAddr) / INSN_SIZE;
    assert Callee(e, pc, Data(s.reg[..11], s.host)) == target;
    EnterLinked(e, slot, t, target);
    PushKeepsMeter(Effects(e, slot), View(t), s.reg[PC]);
  }

  lemma PushKeepsMeter<D, F>(m: M.Guest<D, F>, s: M.Interp<D, F>, target: nat)
    ensures M.PushFrame(m, s, target).due == s.due && M.PushFrame(m, s, target).previous == s.previous
    ensures M.PushFrame(m, s, target).data == m.enter(s.data)
  {
  }

  lemma ExitLinked<H(!new)>(e: Executable<H>, slot: u64, s: State<H>)
    requires Performing(e, s) && Decode(e.version, Fetch(e.program, s.reg[PC]).opc).Exit?
    ensures Linked(Performed(e, s), Interpreted(Guest(e), Effects(e, slot), e.config.maxCallDepth, s))
  {
    hide Decode, Fetch, Accepted, Safe, M.Interpret, Enter, Call, Compute, WideImmediate, Address, Narrow, Holds,
         Operand;
    var pc: nat := s.reg[PC];
    AcceptedIsSafe(e.program, e.version, pc);
    assert Guest(e)[pc] == M.Exit;
    M.InterpretsExit(Guest(e), Effects(e, slot), e.config.maxCallDepth, View(s));
    var t := s.(due := s.due + 1);
    if s.depth > 0 {
      LeaveLinked(t);
    }
  }

  lemma LeaveLinked<H>(s: State<H>)
    requires |s.reg| == 12 && 0 < s.depth <= |s.frames|
    ensures var u := Leave(s).state; var v := View(s); var f := s.frames[s.depth - 1];
      && Leave(s).More? && |u.reg| == 12 && u.depth <= |u.frames| && |v.frames| == s.depth
      && v.frames[s.depth - 1] == FrameOf(f)
      && View(u) == v.(pc := f.targetPc, frames := v.frames[..s.depth - 1],
        data := RestoreData(v.data, FrameOf(f).saved))
  {
    var u, v, f := Leave(s).state, View(s), s.frames[s.depth - 1];
    assert View(u).frames == v.frames[..s.depth - 1];
    assert u.reg[..11] == s.reg[..11][10 := f.framePointer][6 := f.r6][7 := f.r7][8 := f.r8][9 := f.r9];
  }

  lemma CallLinked<H(!new)>(e: Executable<H>, slot: u64, s: State<H>)
    requires Performing(e, s) && Decode(e.version, Fetch(e.program, s.reg[PC]).opc).CallImm? && Registered(e)
    ensures Linked(Performed(e, s), Interpreted(Guest(e), Effects(e, slot), e.config.maxCallDepth, s))
  {
    hide Decode, Fetch, Accepted, Safe, Enter, M.PushFrame, Trunc, Call, Perform, Linked, Interpreted, Effects, Guest;
    var pc: nat := s.reg[PC];
    var insn := Fetch(e.program, pc);
    var t := s.(due := s.due + 1);
    AcceptedIsSafe(e.program, e.version, pc);
    PerformCall(e, t, insn);
    if BuiltinKey(e, insn).Some? {
      BuiltinLinked(e, slot, s, insn);
    } else {
      GuestCallLinked(e, slot, s, insn);
    }
  }

  /** What the guest program has at a call. */
  lemma CallKind<H>(e: Executable<H>, pc: nat)
    requires Registered(e) && InProgram(e.program, pc) && Decode(e.version, Fetch(e.program, pc).opc).CallImm?
    ensures pc < |Guest(e)|
    ensures var insn := Fetch(e.program, pc); var builtin := BuiltinKey(e, insn).Some?;
      match CallTarget(e, insn, pc)
      case Some(target) =>
        && 0 <= target < Count(e.program)
        && Guest(e)[pc] == if builtin then M.SyscallAndCall(target) else M.CallTo(target)
      case None => Guest(e)[pc] == if builtin then M.Syscall else M.Unresolved
  {
    hide Decode, Fetch, BuiltinKey, Trunc;
  }

  /** Entering a function of the program is entering it in the abstract guest. */
  lemma EnterIsEnter<H(!new)>(e: Executable<H>, slot: u64, s: State<H>, target: int)
    requires Ready(e, s) && 0 <= target < Count(e.program)
    ensures Linked(Enter(e, s, target), M.Enter(Effects(e, slot), e.config.maxCallDepth, View(s), target))
  {
    hide Enter, M.PushFrame, Effects;
    EnterLinked(e, slot, s, target);
  }

  lemma GuestCallLinked<H(!new)>(e: Executable<H>, slot: u64, s: State<H>, insn: Insn)
    requires Performing(e, s) && insn == Fetch(e.program, s.reg[PC]) && Decode(e.version, insn.opc).CallImm?
    requires Registered(e)
    requires BuiltinKey(e, insn).None?
    ensures Linked(Call(e, s.(due := s.due + 1), insn),
                   Interpreted(Guest(e), Effects(e, slot), e.config.maxCallDepth, s))
  {
    hide Decode, Fetch, Accepted, Safe, Enter, Trunc, BuiltinKey, CallTarget, Guest, Effects, M.Interpret, M.Enter,
         Registered;
    var pc: nat := s.reg[PC];
    var t := s.(due := s.due + 1);
    CallKind(e, pc);
    var target := CallTarget(e, insn, pc);
    if target.Some? {
      M.InterpretsCall(Guest(e), Effects(e, slot), e.config.maxCallDepth, View(s));
      EnterIsEnter(e, slot, t, target.value);
      assert View(t) == View(s).(due := s.due + 1);
    } else {
      M.InterpretsUnresolved(Guest(e), Effects(e, slot), e.config.maxCallDepth, View(s));
    }
  }

  /** The state behind a system call, before the pc moves on. */
  function Dispatched<H>(s: State<H>, value: u64, host: H, left: u64): State<H>
    requires |s.reg| == 12
  {
    s.(due := 0, previous := left, remaining := left, host := host, reg := s.reg[0 := value])
  }

  /** What the abstract guest makes of a call of a built-in function. */
  lemma SyscallIsCall<H(!new)>(e: Executable<H>, slot: u64, s: State<H>, insn: Insn)
    requires Performing(e, s) && insn == Fetch(e.program, s.reg[PC]) && BuiltinKey(e, insn).Some?
    ensures var d := Data(s.reg[..11], s.host);
      var (result, host, left) := e.call(BuiltinKey(e, insn).value, s.host, s.reg[1..6], s.previous - s.due - 1);
      Effects(e, slot).syscall(s.reg[PC], d, s.previous - s.due - 1) ==
        match result
        case Ok(value) => (Ok(Data(d.reg[0 := value], host)), left)
        case Err(fault) => (Err(M.Failure(Code(fault), false, Data(d.reg, host))), left)
  {
    hide Decode, Fetch, Accepted, BuiltinKey;
    assert s.reg[..11][1..6] == s.reg[1..6];
  }

  /** What the interpreter makes of it. */
  lemma CallOfBuiltin<H>(e: Executable<H>, s: State<H>, insn: Insn)
    requires Ready(e, s) && BuiltinKey(e, insn).Some?
    ensures var (result, host, left) := e.call(BuiltinKey(e, insn).value, s.host, s.reg[1..6], s.previous - s.due);
      match result
      case Err(fault) =>
        Call(e, s, insn) == Halt(s.(due := 0, previous := left, remaining := left, host := host), Err(fault))
      case Ok(value) =>
        var t := Dispatched(s, value, host, left);
        match CallTarget(e, insn, s.reg[PC])
        case Some(target) => Ready(e, t) && Call(e, s, insn) == Enter(e, t, target)
        case None => Call(e, s, insn) == More(GoTo(t, s.reg[PC] + 1))
  {
    hide BuiltinKey, CallTarget, Enter;
  }

  lemma ViewDispatched<H>(s: State<H>, value: u64, host: H, left: u64)
    requires |s.reg| == 12 && s.depth <= |s.frames|
    ensures View(Dispatched(s, value, host, left)) ==
      View(s).(due := 0, previous := left, data := Data(s.reg[..11][0 := value], host))
  {
  }

  lemma ViewGoesOn<H>(s: State<H>, pc: u64)
    requires |s.reg| == 12 && s.depth <= |s.frames|
    ensures var t := GoTo(s, pc);
      && |t.reg| == 12 && t.depth == s.depth && t.frames == s.frames && View(t) == View(s).(pc := pc)
  {
    ViewPut(s, 0, 0, pc);
  }

  lemma BuiltinLinked<H(!new)>(e: Executable<H>, slot: u64, s: State<H>, insn: Insn)
    requires Performing(e, s) && insn == Fetch(e.program, s.reg[PC]) && Decode(e.version, insn.opc).CallImm?
    requires Registered(e)
    requires BuiltinKey(e, insn).Some?
    ensures Linked(Call(e, s.(due := s.due + 1), insn),
                   Interpreted(Guest(e), Effects(e, slot), e.config.maxCallDepth, s))
  {
    hide Decode, Fetch, Accepted, Safe, Enter, Trunc, BuiltinKey, CallTarget, Guest, Effects, M.Interpret, M.Enter,
         Registered, Call, GoTo;
    var pc: nat := s.reg[PC];
    var t := s.(due := s.due + 1);
    CallKind(e, pc);
    CallOfBuiltin(e, t, insn);
    SyscallIsCall(e, slot, s, insn);
    M.InterpretsSyscall(Guest(e), Effects(e, slot), e.config.maxCallDepth, View(s));
    var (result, host, left) := e.call(BuiltinKey(e, insn).value, s.host, s.reg[1..6], s.previous - s.due - 1);
    match result
    case Err(fault) => CodeRoundTrip(fault);
    case Ok(value) =>
      var u := Dispatched(t, value, host, left);
      ViewDispatched(t, value, host, left);
      var target := CallTarget(e, insn, pc);
      if target.Some? {
        EnterIsEnter(e, slot, u, target.value);
      } else {
        ViewGoesOn(u, pc + 1);
      }
  }

  /** Every step of the interpreter is a step of the abstract guest. */
  lemma StepLinked<H(!new)>(e: Executable<H>, slot: u64, s: State<H>)
    requires Runnable(e) && Interpreter.Sane(e, s) && Registered(e)
    ensures Linked(Next(e, s), Interpreted(Guest(e), Effects(e, slot), e.config.maxCallDepth, s))
  {
    hide Decode, Fetch, Accepted, Safe, Perform, Linked, Interpreted, Registered;
    if s.due >= s.previous || s.reg[PC] * INSN_SIZE >= |e.program| {
      StopLinked(e, slot, s);
    } else {
      LengthIsMultiple(e.program, e.version);
      assert Next(e, s) == Performed(e, s);
      var op := Decode(e.version, Fetch(e.program, s.reg[PC]).opc);
      if IsPlain(op) {
        PlainLinked(e, slot, s);
      } else if op.CallReg? {
        CallRegisterLinked(e, slot, s);
      } else if op.CallImm? {
        CallLinked(e, slot, s);
      } else if op.Exit? {
        ExitLinked(e, slot, s);
      } else if op.Lddw? {
        WideLinked(e, slot, s);
      } else if op.Jump? {
        JumpLinked(e, slot, s);
      } else {
        HalfLinked(e, slot, s);
      }
    }
  }

  lemma StopLinked<H(!new)>(e: Executable<H>, slot: u64, s: State<H>)
    requires Runnable(e) && Interpreter.Sane(e, s) && (s.due >= s.previous || s.reg[PC] * INSN_SIZE >= |e.program|)
    ensures Linked(Next(e, s), Interpreted(Guest(e), Effects(e, slot), e.config.maxCallDepth, s))
  {
    hide Decode, Fetch, Accepted, Safe, Perform, Guest, Effects;
    LengthIsMultiple(e.program, e.version);
    GuestSize(e);
  }

  lemma GuestSize<H>(e: Executable<H>)
    ensures |Guest(e)| == Count(e.program)
  {
  }

  // ---------------------------------------------------------------- whole runs

  /** What the verifier guarantees of the control flow, in the terms of the meter proof. */
  lemma GuestIsWellFormed<H>(e: Executable<H>)
    requires Runnable(e) && Registered(e)
    ensures M.WellFormed(Guest(e))
  {
    hide Decode, Fetch, Accepted, Safe, Kind, Runnable, Registered;
    var p := Guest(e);
    forall pc | 0 <= pc < |p| ensures p[pc].Wide? ==> pc + 1 < |p| && p[pc + 1].Half? {
      WideAndHalf(e, pc);
    }
    forall pc | 0 <= pc < |p| ensures p[pc].Half? ==> pc > 0 && p[pc - 1].Wide? {
      WideAndHalf(e, pc);
    }
    forall pc | 0 <= pc < |p| && (p[pc].Jump? || p[pc].Branch?) ensures p[pc].target < |p| && !p[p[pc].target].Half? {
      KindIsWellFormed(e, pc);
    }
    forall pc | 0 <= pc < |p| && (p[pc].CallTo? || p[pc].SyscallAndCall?) ensures p[pc].target < |p| {
      KindIsWellFormed(e, pc);
    }
  }

  /** Only operation code zero is a second half. */
  lemma KindOfHalf<H>(e: Executable<H>, pc: nat)
    requires Runnable(e) && Registered(e) && InProgram(e.program, pc)
    ensures Kind(e, pc).Half? <==> Fetch(e.program, pc).opc == 0
    ensures Kind(e, pc).Wide? <==> Decode(e.version, Fetch(e.program, pc).opc) == Lddw
  {
    hide Decode, Fetch, Accepted;
    AcceptedIsSafe(e.program, e.version, pc);
  }

  lemma KindIsWellFormed<H>(e: Executable<H>, pc: nat)
    requires Runnable(e) && Registered(e) && InProgram(e.program, pc)
    ensures var k := Kind(e, pc);
      && (k.Jump? || k.Branch? ==> InProgram(e.program, k.target) && !Kind(e, k.target).Half?)
      && (k.CallTo? || k.SyscallAndCall? ==> InProgram(e.program, k.target))
  {
    hide Decode, Fetch, Accepted;
    AcceptedIsSafe(e.program, e.version, pc);
    var insn := Fetch(e.program, pc);
    if Decode(e.version, insn.opc).Jump? {
      KindOfHalf(e, pc + 1 + insn.off);
    }
  }

  lemma WideAndHalf<H>(e: Executable<H>, pc: nat)
    requires Runnable(e) && Registered(e) && InProgram(e.program, pc)
    ensures Kind(e, pc).Wide? ==> InProgram(e.program, pc + 1) && Kind(e, pc + 1).Half?
    ensures Kind(e, pc).Half? ==> pc > 0 && Kind(e, pc - 1).Wide?
  {
    hide Decode, Fetch, Accepted, Kind;
    KindOfHalf(e, pc);
    ZeroIsSecondHalf(e.program, e.version, pc);
    if Kind(e, pc).Half? {
      KindOfHalf(e, pc - 1);
    }
    if Kind(e, pc).Wide? {
      WideIsFollowed(e, pc);
      ZeroIsSecondHalf(e.program, e.version, pc + 1);
      KindOfHalf(e, pc + 1);
    }
  }

  lemma WideIsFollowed<H>(e: Executable<H>, pc: nat)
    requires Runnable(e) && InProgram(e.program, pc) && Decode(e.version, Fetch(e.program, pc).opc) == Lddw
    ensures InProgram(e.program, pc + 1)
  {
    hide Decode, Fetch, Accepted;
    AcceptedIsSafe(e.program, e.version, pc);
  }

  lemma EffectsAreSane<H(!new)>(e: Executable<H>, slot: u64)
    requires NeverRaises(e)
    ensures M.Sane(Effects(e, slot))
  {
    hide NeverRaises, Syscall, Callee, EnterData;
    forall pc: nat, d: Data<H>, left: nat ensures Effects(e, slot).syscall(pc, d, left).1 <= left {
      SyscallNeverRaises(e, pc, d, left);
    }
    forall pc: nat, d: Data<H> ensures Effects(e, slot).callee(pc, Effects(e, slot).enter(d)) ==
                                       Effects(e, slot).callee(pc, d) {
      EnterKeepsCallee(e, pc, d);
    }
  }

  lemma SyscallNeverRaises<H(!new)>(e: Executable<H>, pc: nat, d: Data<H>, left: nat)
    requires NeverRaises(e)
    ensures Syscall(e, pc, d, left).1 <= left
  {
    hide Fetch, Runnable, BuiltinKey;
  }

  lemma EnterKeepsCallee<H>(e: Executable<H>, pc: nat, d: Data<H>)
    ensures Callee(e, pc, EnterData(e, d)) == Callee(e, pc, d)
  {
    hide Fetch, Runnable, Trunc;
  }

  /** Running from the front. */
  lemma {:induction false} RunFromFront<H>(e: Executable<H>, s: State<H>, n: nat)
    requires Runnable(e) && Interpreter.Sane(e, s)
    ensures match Next(e, s)
      case More(t) => Interpreter.Sane(e, t) && Run(e, s, n + 1) == Run(e, t, n)
      case Halt(t, r) => Run(e, s, n + 1) == Halt(t, r)
  {
    hide Next, Runnable, Interpreter.Sane;
    NextKeeps(e, s);
    assert Run(e, s, 0) == More(s);
    if n > 0 {
      RunFromFront(e, s, n - 1);
    }
  }

  /** Every run of the interpreter is a run of the abstract guest. */
  lemma {:induction false} RunLinked<H(!new)>(e: Executable<H>, slot: u64, s: State<H>, k: nat)
    requires Runnable(e) && Interpreter.Sane(e, s) && Registered(e)
    ensures Linked(Run(e, s, k), M.InterpretFor(Guest(e), Effects(e, slot), e.config.maxCallDepth, View(s), k))
    decreases k
  {
    hide Next, Runnable, Registered, Guest, Effects, M.Interpret, SameVerdict;
    if k > 0 {
      StepLinked(e, slot, s);
      RunFromFront(e, s, k - 1);
      var o := Next(e, s);
      if o.More? {
        RunLinked(e, slot, o.state, k - 1);
      }
    }
  }

  /** The compiled code of an executable, with the address of its result slot. */
  ghost function Compiled<H>(e: Executable<H>, code: seq<seq<M.Op>>, slot: u64, scrap: (nat, nat, nat) -> nat)
    : M.Jit<Data<H>, Saved>
  {
    M.Jit(Guest(e), code, Effects(e, slot), e.config.maxCallDepth, scrap)
  }

  /** What compiled code that is entered with a state's registers and budget makes of its run of k steps. */
  ghost predicate RunsLike<H(!new)>(j: M.Jit<Data<H>, Saved>, slot: u64, h: M.Host<Data<H>, Saved>, o: Outcome<H>) {
    match o
    case More(t) => |t.reg| == 12 && exists l: nat, u :: M.ExecuteFor(j, h, l) == M.Going(u) && IsAt(u, t)
    case Halt(t, r) => |t.reg| == 12 && exists l: nat :: StopsLike(M.ExecuteFor(j, h, l), slot, t, r)
  }

  /** The same pc, registers, host and call depth, and the meter stands for the remaining budget. */
  ghost predicate IsAt<H>(u: M.Host<Data<H>, Saved>, t: State<H>)
    requires |t.reg| == 12
  {
    && u.pc == t.reg[PC] && u.data == Data(t.reg[..11], t.host) && u.depth == t.depth
    && u.meter - u.pc == t.previous - t.due
  }

  /**
   The same value or error. Unless the budget is exceeded also the same count, host and registers, except that
   errors whose kind compiled code sets itself leave the address of the result slot in r0.
   */
  ghost predicate StopsLike<H>(r: M.Run<M.Host<Data<H>, Saved>, Data<H>>, slot: u64, t: State<H>,
                               result: Result<u64, Fault>)
    requires |t.reg| == 12
  {
    && r.Done? && r.previous == t.previous && SameVerdict(r.verdict, r.data, result)
    && (r.verdict != M.ExceededMaxInstructions ==>
          && r.due == t.due && r.data.host == t.host && |r.data.reg| == 11 && r.data.reg[1..] == t.reg[1..11]
          && r.data.reg[0] == if M.SetsKind(r.verdict) then slot else t.reg[0])
  }

  /** A run starts at depth zero inside of the program, with a budget that does not wrap. */
  ghost predicate Starts<H>(e: Executable<H>, s: State<H>) {
    && Runnable(e) && Interpreter.Sane(e, s) && s.depth == 0 && s.due == 0
    && s.reg[PC] <= Count(e.program) && s.previous + Count(e.program) < WORD
  }

  /** Entering compiled code with the registers and the budget of a state. */
  ghost function EnteredWith<H>(s: State<H>): M.Host<Data<H>, Saved>
    requires |s.reg| == 12
  {
    M.Invoke(s.previous, s.reg[PC], Data(s.reg[..11], s.host))
  }

  lemma Entering<H(!new)>(e: Executable<H>, code: seq<seq<M.Op>>, slot: u64, scrap: (nat, nat, nat) -> nat, s: State<H>)
    requires Starts(e, s)
    ensures |s.reg| == 12 && s.depth <= |s.frames| && M.Sim(Compiled(e, code, slot, scrap), View(s), EnteredWith(s))
  {
    hide Runnable, Guest, Effects;
    GuestSize(e);
    M.InvokeRelates(Compiled(e, code, slot, scrap), s.previous, s.reg[PC], Data(s.reg[..11], s.host));
    assert View(s) == M.Interp(s.reg[PC], 0, s.previous, [], Data(s.reg[..11], s.host));
  }

  /** The data that compiled code leaves, in terms of the interpreter's state. */
  lemma LeftData<H>(e: Executable<H>, slot: u64, v: M.Verdict, t: State<H>)
    requires |t.reg| == 12
    ensures var d := M.Left(Effects(e, slot), v, Data(t.reg[..11], t.host));
      && d.host == t.host && |d.reg| == 11 && d.reg[1..] == t.reg[1..11]
      && d.reg[0] == if M.SetsKind(v) then slot else t.reg[0]
  {
  }

  /** The value that compiled code returns is the interpreter's. */
  lemma SameAfterRaise<H>(e: Executable<H>, slot: u64, v: M.Verdict, d: Data<H>, r: Result<u64, Fault>)
    requires SameVerdict(v, d, r)
    ensures SameVerdict(v, M.Left(Effects(e, slot), v, d), r)
  {
  }

  /**
   For every verified program, every run and every budget that does not wrap: at the boundary that the interpreter
   reaches after k steps, the compiled code has the same registers and host, and its meter minus its pc is the
   interpreter's remaining budget. Both return the same value or stop with the same error, and unless the budget is
   exceeded with the same count, host and registers, but for r0 where compiled code sets the kind of the error.
   */
  lemma CompiledRunsCountAlike<H(!new)>(e: Executable<H>, code: seq<seq<M.Op>>, slot: u64,
                                        scrap: (nat, nat, nat) -> nat, s: State<H>, k: nat)
    requires Starts(e, s) && Registered(e) && NeverRaises(e) && M.IsCompiled(Guest(e), code)
    ensures RunsLike(Compiled(e, code, slot, scrap), slot, EnteredWith(s), Run(e, s, k))
  {
    hide M.IsCompiled, Runnable, Registered, NeverRaises, Guest, Effects, M.InterpretFor, Run, M.ExecuteFor,
         SameVerdict, EnteredWith, M.Left, M.LeftExceeded;
    GuestIsWellFormed(e);
    EffectsAreSane(e, slot);
    RunLinked(e, slot, s, k);
    var j, h := Compiled(e, code, slot, scrap), EnteredWith(s);
    Entering(e, code, slot, scrap, s);
    M.MeterRefines(j, View(s), h, k);
    var o := Run(e, s, k);
    if o.Halt? {
      var r := M.InterpretFor(j.p, j.m, j.maxDepth, View(s), k);
      if r.verdict == M.ExceededMaxInstructions {
        var l: nat :| M.LeftExceeded(M.ExecuteFor(j, h, l), r.previous);
        ExceededStops(M.ExecuteFor(j, h, l), slot, o.state, r.data, o.result);
      } else {
        var l: nat :| M.ExecuteFor(j, h, l) == M.Done(r.verdict, r.due, r.previous, M.Left(j.m, r.verdict, r.data));
        LeftData(e, slot, r.verdict, o.state);
        SameAfterRaise(e, slot, r.verdict, r.data, o.result);
        assert StopsLike(M.ExecuteFor(j, h, l), slot, o.state, o.result);
      }
    }
  }

  lemma ExceededStops<H>(r: M.Run<M.Host<Data<H>, Saved>, Data<H>>, slot: u64, t: State<H>, d: Data<H>,
                         result: Result<u64, Fault>)
    requires |t.reg| == 12 && M.LeftExceeded(r, t.previous) && SameVerdict(M.ExceededMaxInstructions, d, result)
    ensures StopsLike(r, slot, t, result)
  {
  }

  /** Conversely, where compiled code stops the interpreter stops, in the same way. */
  lemma InterpreterStopsToo<H(!new)>(e: Executable<H>, code: seq<seq<M.Op>>, slot: u64,
                                     scrap: (nat, nat, nat) -> nat, s: State<H>, l: nat)
    requires Starts(e, s) && Registered(e) && NeverRaises(e) && M.IsCompiled(Guest(e), code)
    requires M.ExecuteFor(Compiled(e, code, slot, scrap), EnteredWith(s), l).Done?
    ensures var o := Run(e, s, l + 1);
      && o.Halt? && |o.state.reg| == 12
      && StopsLike(M.ExecuteFor(Compiled(e, code, slot, scrap), EnteredWith(s), l), slot, o.state, o.result)
  {
    hide M.IsCompiled, Runnable, Registered, NeverRaises, Guest, Effects, M.InterpretFor, Run, M.ExecuteFor,
         SameVerdict, EnteredWith, M.Left;
    GuestIsWellFormed(e);
    EffectsAreSane(e, slot);
    RunLinked(e, slot, s, l + 1);
    var j, h := Compiled(e, code, slot, scrap), EnteredWith(s);
    Entering(e, code, slot, scrap, s);
    M.CompiledStopsLikeInterpreter(j, View(s), h, l);
    var o, r := Run(e, s, l + 1), M.InterpretFor(j.p, j.m, j.maxDepth, View(s), l + 1);
    if r.verdict == M.ExceededMaxInstructions {
      ExceededStops(M.ExecuteFor(j, h, l), slot, o.state, r.data, o.result);
    } else {
      LeftData(e, slot, r.verdict, o.state);
      SameAfterRaise(e, slot, r.verdict, r.data, o.result);
    }
  }
}
