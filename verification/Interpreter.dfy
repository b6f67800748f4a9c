/** The interpreter: one step of a verified program as a function on states. */
module Interpreter {
  import opened Options
  import opened Words
  import opened Arithmetic
  import opened Instructions
  import opened Verifier

  const PC: nat := 11

  datatype Fault =
    | ExceededMaxInstructions
    | ExecutionOverrun
    | CallDepthExceeded
    | CallOutsideTextSegment
    | DivideByZero
    | DivideOverflow
    | InvalidInstruction
    | UnsupportedInstruction
    | Foreign(code: nat)

  datatype Frame = Frame(r6: u64, r7: u64, r8: u64, r9: u64, framePointer: u64, targetPc: u64)

  datatype Config = Config(maxCallDepth: nat, stackFrameSize: nat, enableStackFrameGaps: bool)

  /**
   What a run does not change: the program, its functions by key, and the host. Memory accesses and built-in
   functions are arbitrary functions of the host's state; a built-in function gets five arguments and the
   remaining budget, and returns the budget that is left.
   */
  datatype Executable<!H> = Executable(
    program: seq<byte>, version: Version, vmAddr: u64, config: Config,
    functions: map<nat, u64>, builtins: set<nat>,
    load: (H, u64, nat) -> (Result<u64, Fault>, H),
    store: (H, u64, u64, nat) -> (Result<u64, Fault>, H),
    call: (nat, H, seq<u64>, u64) -> (Result<u64, Fault>, H, u64))

  /** The state of a run; `remaining` is what the context object answers when it is asked. */
  datatype State<H> = State(reg: seq<u64>, frames: seq<Frame>, depth: nat, due: u64, previous: u64, remaining: u64,
                            host: H)

  datatype Outcome<H> = More(state: State<H>) | Halt(state: State<H>, result: Result<u64, Fault>)

  /** A program that passed the verifier, in a configuration that an interpreter accepts. */
  ghost predicate Runnable<H>(e: Executable<H>) {
    && Accepted(e.program, e.version) && |e.program| <= 0x7FFF_FFFF_FFFF_FFFF
    && 1 <= e.config.maxCallDepth && 2 * e.config.stackFrameSize <= MAX
  }

  /** What holds in every state of a run. */
  ghost predicate Sane<H>(e: Executable<H>, s: State<H>) {
    && |s.reg| == 12 && s.depth < e.config.maxCallDepth <= |s.frames|
    && s.reg[PC] * INSN_SIZE <= MAX
    && (forall i :: 0 <= i < s.depth ==> s.frames[i].targetPc <= Count(e.program))
    && s.due <= s.previous == s.remaining
  }

  // ---------------------------------------------------------------- what an instruction computes

  function Operand(source: Source, imm: int, register: u64): u64 {
    match source
    case Imm => Trunc(W64, imm)
    case LowImm => Trunc(W32, imm)
    case Reg => register
  }

  function ProductResult(op: PqrOp, w: Width, source: Source, a: u64, b: u64): Result<u64, Fault>
    requires IsDivision(op) && source != Reg ==> Trunc(w, b) != 0
  {
    if IsDivision(op) && source == Reg && Trunc(w, b) == 0 then Err(DivideByZero)
    else if IsSigned(op) && Overflows(w, a, b) then Err(DivideOverflow)
    else Ok(Pqr(op, w, a, b))
  }

  function EndianResult(big: bool, imm: int, a: u64): Result<u64, Fault> {
    if imm == 16 then Ok(if big then Trunc(W64, SwapBytes(a, 2)) else a % 0x1_0000)
    else if imm == 32 then Ok(if big then Trunc(W64, SwapBytes(a, 4)) else Trunc(W32, a))
    else if imm == 64 then Ok(if big then Trunc(W64, SwapBytes(a, 8)) else a)
    else Err(InvalidInstruction)
  }

  /** Operations whose only effect is on their destination register. */
  predicate IsCompute(op: Op) {
    op.Arith? || op.Product? || op.Shifted? || op.Endian?
  }

  function Compute(v: Version, op: Op, imm: int, a: u64, b: u64): Result<u64, Fault>
    requires IsCompute(op)
    requires op.Product? && IsDivision(op.pqr) && op.source != Reg ==> Trunc(op.w, b) != 0
  {
    match op
    case Arith(alu, w, _) => Ok(Alu(alu, w, ExplicitSignExtension(v), a, b))
    case Product(pqr, w, source) => ProductResult(pqr, w, source, a, b)
    case Shifted(shift, w, _) => Ok(Shift(shift, w, a, b))
    case Endian(big) => EndianResult(big, imm, a)
  }

  /** The source register is read only by the operations that have one. */
  function SourceOfOp(op: Op): Source {
    match op
    case Arith(_, _, source) => source
    case Product(_, _, source) => source
    case Shifted(_, _, source) => source
    case Store(_, source) => source
    case Jump(_, _, source) => source
    case _ => Imm
  }

  // ---------------------------------------------------------------- what the verifier guarantees here

  /** The registers and immediates that an accepted instruction uses are in range. */
  ghost predicate Safe(e: seq<byte>, v: Version, insn: Insn, pc: nat) {
    var op := Decode(v, insn.opc);
    && insn.src <= 10 && insn.dst <= 10
    && (insn.dst == FRAME_POINTER ==> op.Store? || (ManualStackFrameBump(v) && op == Arith(Add, W64, Imm)))
    && (op.Lddw? ==> InProgram(e, pc + 1))
    && (op.Product? && IsDivision(op.pqr) && op.source != Reg ==> Trunc(op.w, Operand(op.source, insn.imm, 0)) != 0)
    && (op.Jump? ==> InProgram(e, pc + 1 + insn.off) && Fetch(e, pc + 1 + insn.off).opc != 0)
    && (op.CallReg? ==> 0 <= CallRegister(insn, v) < 10)
    && (op.Endian? ==> EndianResult(op.big, insn.imm, 0).Ok?)
  }

  lemma NonZeroImmediate(w: Width, source: Source, imm: int)
    requires imm != 0 && -0x8000_0000 <= imm < 0x8000_0000
    ensures source != Reg ==> Trunc(w, Operand(source, imm, 0)) != 0
  {
  }

  lemma FetchIsEncodable(prog: seq<byte>, pc: nat)
    requires InProgram(prog, pc)
    ensures Encodable(Fetch(prog, pc))
  {
    hide Parse;
    EncodeParse(prog[pc * INSN_SIZE..pc * INSN_SIZE + INSN_SIZE]);
  }

  lemma PassedIsSafe(prog: seq<byte>, v: Version, pc: nat)
    requires InProgram(prog, pc) && CheckInstruction(prog, v, pc).Ok?
    ensures Safe(prog, v, Fetch(prog, pc), pc)
  {
    hide Decode, Fetch, Trunc, Operand;
    var insn := Fetch(prog, pc);
    var op := Decode(v, insn.opc);
    FetchIsEncodable(prog, pc);
    OnlyBumpCode(v, insn.opc);
    if op.Product? && IsDivision(op.pqr) && op.source != Reg {
      NonZeroImmediate(op.w, op.source, insn.imm);
    }
  }

  /** In an accepted program every instruction is safe, or is a second half, which no operation code stands for. */
  lemma AcceptedIsSafe(prog: seq<byte>, v: Version, pc: nat)
    requires Accepted(prog, v) && InProgram(prog, pc)
    ensures Safe(prog, v, Fetch(prog, pc), pc) || Fetch(prog, pc).opc == 0
    ensures Decode(v, Fetch(prog, pc).opc) == Unknown <==> Fetch(prog, pc).opc == 0
  {
    hide CheckInstruction, Decode, Fetch, Safe;
    assert Passes(prog, v, pc);
    ZeroIsSecondHalf(prog, v, pc);
    if Fetch(prog, pc).opc == 0 {
      ZeroFails(prog, v, pc);
    } else {
      PassedIsSafe(prog, v, pc);
      PassedIsKnown(prog, v, pc);
    }
  }

  lemma PassedIsKnown(prog: seq<byte>, v: Version, pc: nat)
    requires InProgram(prog, pc) && CheckInstruction(prog, v, pc).Ok?
    ensures Decode(v, Fetch(prog, pc).opc) != Unknown
  {
    hide Decode, Fetch;
  }

  // ---------------------------------------------------------------- one step as a function

  /** The low bytes that a store writes. */
  function Narrow(size: nat, x: int): u64 {
    match size
    case 1 => x % 0x100
    case 2 => x % 0x1_0000
    case 4 => x % 0x1_0000_0000
    case _ => x % 0x1_0000_0000_0000_0000
  }

  function Address(base: u64, off: int): u64 {
    Trunc(W64, base + off)
  }

  function GoTo<H>(s: State<H>, pc: u64): State<H>
    requires |s.reg| == 12
  {
    s.(reg := s.reg[PC := pc])
  }

  /** The distance of two frames in the guest's address space. */
  function Stride<H>(e: Executable<H>): nat {
    if StackFrameGaps(e.version) && e.config.enableStackFrameGaps then 2 * e.config.stackFrameSize
      else e.config.stackFrameSize
  }

  function Pushed<H>(s: State<H>): State<H>
    requires |s.reg| == 12 && s.depth < |s.frames| && s.reg[PC] < MAX
  {
    var frame := Frame(s.reg[6], s.reg[7], s.reg[8], s.reg[9], s.reg[FRAME_POINTER], s.reg[PC] + 1);
    s.(frames := s.frames[s.depth := frame], depth := s.depth + 1)
  }

  function Bumped<H>(e: Executable<H>, s: State<H>): State<H>
    requires |s.reg| == 12
  {
    if ManualStackFrameBump(e.version) then s
    else s.(reg := s.reg[FRAME_POINTER := Trunc(W64, s.reg[FRAME_POINTER] + Stride(e))])
  }

  /** Pushes a frame and continues at `target`, unless there is no frame left or no such instruction. */
  function Enter<H>(e: Executable<H>, s: State<H>, target: int): Outcome<H>
    requires |s.reg| == 12 && s.depth < |s.frames| && s.reg[PC] < MAX && |e.program| <= MAX
  {
    var pushed := Pushed(s);
    if pushed.depth == e.config.maxCallDepth then Halt(pushed, Err(CallDepthExceeded))
    else
      var bumped := Bumped(e, pushed);
      if InProgram(e.program, target) then More(GoTo(bumped, target)) else Halt(bumped, Err(CallOutsideTextSegment))
  }

  /** Calls a built-in function, handing over the meter and taking it back. */
  function Dispatch<H>(e: Executable<H>, s: State<H>, key: nat): (Result<u64, Fault>, State<H>)
    requires |s.reg| == 12 && s.due <= s.previous
  {
    var due: u64 := s.previous - s.due;
    var used: u64 := s.previous - due;
    var (result, host, left) := e.call(key, s.host, s.reg[1..6], SaturatingSub(s.remaining, used));
    (result, s.(due := 0, previous := left, remaining := left, host := host))
  }

  /** The built-in function that a call instruction names, if any. */
  function BuiltinKey<H>(e: Executable<H>, insn: Insn): Option<nat> {
    var key := Trunc(W32, insn.imm);
    if (!StaticSyscalls(e.version) || insn.src == 0) && key in e.builtins then Some(key) else None
  }

  /** The guest function that a call instruction names, if any. */
  function CallTarget<H>(e: Executable<H>, insn: Insn, pc: nat): Option<int> {
    if StaticSyscalls(e.version) then
      if InProgram(e.program, pc + 1 + insn.imm) && insn.src == 1 then Some(pc + 1 + insn.imm) else None
    else if Trunc(W32, insn.imm) in e.functions then Some(e.functions[Trunc(W32, insn.imm)])
    else None
  }

  /** A built-in function runs first; a guest function with the same key would run behind it. */
  function Call<H>(e: Executable<H>, s: State<H>, insn: Insn): Outcome<H>
    requires Ready(e, s)
  {
    match BuiltinKey(e, insn)
    case None => CallGuest(e, s, insn, false)
    case Some(key) =>
      var (result, t) := Dispatch(e, s, key);
      match result
      case Err(fault) => Halt(t, Err(fault))
      case Ok(value) => CallGuest(e, t.(reg := t.reg[0 := value]), insn, true)
  }

  function CallGuest<H>(e: Executable<H>, s: State<H>, insn: Insn, resolved: bool): Outcome<H>
    requires Ready(e, s)
  {
    match CallTarget(e, insn, s.reg[PC])
    case Some(target) => Enter(e, s, target)
    case None => if resolved then More(GoTo(s, s.reg[PC] + 1)) else Halt(s, Err(UnsupportedInstruction))
  }

  function Leave<H>(s: State<H>): Outcome<H>
    requires |s.reg| == 12 && s.depth <= |s.frames|
  {
    if s.depth == 0 then
      if s.due > s.previous then Halt(s, Err(ExceededMaxInstructions)) else Halt(s, Ok(s.reg[0]))
    else
      var f := s.frames[s.depth - 1];
      var reg := s.reg[FRAME_POINTER := f.framePointer][6 := f.r6][7 := f.r7][8 := f.r8][9 := f.r9][PC := f.targetPc];
      More(s.(depth := s.depth - 1, reg := reg))
  }

  /** An instruction of the program is about to be performed. */
  ghost predicate Ready<H>(e: Executable<H>, s: State<H>) {
    && |e.program| <= 0x7FFF_FFFF_FFFF_FFFF
    && |s.reg| == 12 && s.depth < e.config.maxCallDepth <= |s.frames|
    && InProgram(e.program, s.reg[PC]) && s.due <= s.previous == s.remaining
  }

  function Perform<H>(e: Executable<H>, s: State<H>, insn: Insn): Outcome<H>
    requires Ready(e, s) && (Safe(e.program, e.version, insn, s.reg[PC]) || Decode(e.version, insn.opc) == Unknown)
  {
    var op := Decode(e.version, insn.opc);
    var pc := s.reg[PC];
    match op
    case Unknown => Halt(s, Err(UnsupportedInstruction))
    case Lddw => More(GoTo(s.(reg := s.reg[insn.dst := WideImmediate(e.program, pc)]), pc + 2))
    case Load(size) =>
      var (result, host) := e.load(s.host, Address(s.reg[insn.src], insn.off), size);
      (match result
       case Err(fault) => Halt(s.(host := host), Err(fault))
       case Ok(value) => More(GoTo(s.(host := host, reg := s.reg[insn.dst := value]), pc + 1)))
    case Store(size, source) =>
      var value := Narrow(size, Operand(source, insn.imm, s.reg[insn.src]));
      var (result, host) := e.store(s.host, value, Address(s.reg[insn.dst], insn.off), size);
      (match result
       case Err(fault) => Halt(s.(host := host), Err(fault))
       case Ok(_) => More(GoTo(s.(host := host), pc + 1)))
    case Jump(condition, w, source) =>
      var taken := Holds(condition, w, s.reg[insn.dst], Operand(source, insn.imm, s.reg[insn.src]));
      More(GoTo(s, if taken then pc + 1 + insn.off else pc + 1))
    case CallReg => Enter(e, s, Trunc(W64, s.reg[CallRegister(insn, e.version)] - e.vmAddr) / INSN_SIZE)
    case CallImm => Call(e, s, insn)
    case Exit => Leave(s)
    case _ =>
      match Compute(e.version, op, insn.imm, s.reg[insn.dst], Operand(SourceOfOp(op), insn.imm, s.reg[insn.src]))
      case Err(fault) => Halt(s, Err(fault))
      case Ok(value) => More(GoTo(s.(reg := s.reg[insn.dst := value]), pc + 1))
  }

  function Next<H>(e: Executable<H>, s: State<H>): Outcome<H>
    requires Runnable(e) && Sane(e, s)
  {
    if s.due >= s.previous then Halt(s, Err(ExceededMaxInstructions))
    else
      var t := s.(due := s.due + 1);
      if s.reg[PC] * INSN_SIZE >= |e.program| then Halt(t, Err(ExecutionOverrun))
      else
        AcceptedIsSafe(e.program, e.version, s.reg[PC]);
        Perform(e, t, Fetch(e.program, s.reg[PC]))
  }

  // ---------------------------------------------------------------- what a step keeps

  /** What also holds when the run has stopped: the depth may have reached its maximum. */
  ghost predicate Stopped<H>(e: Executable<H>, s: State<H>) {
    |s.reg| == 12 && s.depth <= e.config.maxCallDepth <= |s.frames| && s.due <= s.previous == s.remaining
  }

  ghost predicate Kept<H>(e: Executable<H>, o: Outcome<H>) {
    && Stopped(e, o.state)
    && (o.More? ==> Sane(e, o.state) && o.state.reg[PC] <= Count(e.program))
  }

  ghost predicate Returns<H>(e: Executable<H>, s: State<H>) {
    s.depth <= |s.frames| && forall i :: 0 <= i < s.depth ==> s.frames[i].targetPc <= Count(e.program)
  }

  lemma EnterKeeps<H>(e: Executable<H>, s: State<H>, target: int)
    requires Ready(e, s) && Returns(e, s)
    ensures Kept(e, Enter(e, s, target))
  {
  }

  lemma CallGuestKeeps<H>(e: Executable<H>, s: State<H>, insn: Insn, resolved: bool)
    requires Ready(e, s) && Returns(e, s)
    ensures Kept(e, CallGuest(e, s, insn, resolved))
  {
    hide Enter;
    var target := CallTarget(e, insn, s.reg[PC]);
    if target.Some? {
      EnterKeeps(e, s, target.value);
    }
  }

  lemma CallKeeps<H>(e: Executable<H>, s: State<H>, insn: Insn)
    requires Ready(e, s) && Returns(e, s)
    ensures Kept(e, Call(e, s, insn))
  {
    hide CallGuest;
    match BuiltinKey(e, insn)
    case None => CallGuestKeeps(e, s, insn, false);
    case Some(key) =>
      var (result, t) := Dispatch(e, s, key);
      if result.Ok? {
        CallGuestKeeps(e, t.(reg := t.reg[0 := result.value]), insn, true);
      }
  }

  lemma PerformKeeps<H>(e: Executable<H>, s: State<H>, insn: Insn)
    requires Ready(e, s) && Returns(e, s)
    requires Safe(e.program, e.version, insn, s.reg[PC]) || Decode(e.version, insn.opc) == Unknown
    ensures Kept(e, Perform(e, s, insn))
  {
    hide Decode, Enter, Call, Compute, Holds, WideImmediate, Fetch, Operand, Narrow, Address;
    match Decode(e.version, insn.opc)
    case CallReg => EnterKeeps(e, s, Trunc(W64, s.reg[CallRegister(insn, e.version)] - e.vmAddr) / INSN_SIZE);
    case CallImm => CallKeeps(e, s, insn);
    case _ =>
  }

  /** Every step of a verified program is defined, and leads to a state from which the next one is. */
  lemma NextKeeps<H>(e: Executable<H>, s: State<H>)
    requires Runnable(e) && Sane(e, s)
    ensures Kept(e, Next(e, s))
  {
    hide Perform, Decode, Fetch, Safe, Accepted;
    if s.due < s.previous && s.reg[PC] * INSN_SIZE < |e.program| {
      LengthIsMultiple(e.program, e.version);
      AcceptedIsSafe(e.program, e.version, s.reg[PC]);
      PerformKeeps(e, s.(due := s.due + 1), Fetch(e.program, s.reg[PC]));
    }
  }

  lemma LengthIsMultiple(prog: seq<byte>, v: Version)
    requires Accepted(prog, v)
    ensures |prog| % INSN_SIZE == 0
  {
  }

  /** A run that lands on the second half of a wide instruction stops there. */
  lemma SecondHalfStops<H>(e: Executable<H>, s: State<H>)
    requires Runnable(e) && Sane(e, s) && s.due < s.previous
    requires InProgram(e.program, s.reg[PC]) && SecondHalf(e.program, e.version, s.reg[PC])
    ensures Next(e, s) == Halt(s.(due := s.due + 1), Err(UnsupportedInstruction))
  {
    hide Decode, Fetch, Safe, Accepted, SecondHalf;
    ZeroIsSecondHalf(e.program, e.version, s.reg[PC]);
    AcceptedIsSafe(e.program, e.version, s.reg[PC]);
  }
}
