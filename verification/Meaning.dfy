/** What one step does for each kind of instruction, in terms of bits, integers and single registers. */
module Meaning {
  import opened Options
  import opened Words
  import opened Arithmetic
  import opened Laws
  import opened Instructions
  import opened Opcodes
  import opened Verifier
  import opened Interpreter

  /** A step is about to perform the instruction at the program counter. */
  ghost predicate About<H>(e: Executable<H>, s: State<H>) {
    Runnable(e) && Sane(e, s) && s.due < s.previous && InProgram(e.program, s.reg[PC])
  }

  ghost function Current<H>(e: Executable<H>, s: State<H>): Insn
    requires About(e, s)
  {
    Fetch(e.program, s.reg[PC])
  }

  /** The instruction is counted before it is performed. */
  ghost function Counted<H>(s: State<H>): State<H>
    requires s.due < s.previous
  {
    s.(due := s.due + 1)
  }

  /** Only one register and the program counter change. */
  ghost function Advanced<H>(s: State<H>, dst: nat, r: u64, pc: u64): State<H>
    requires s.due < s.previous && |s.reg| == 12 && dst < 12
  {
    Counted(s).(reg := s.reg[dst := r][PC := pc])
  }

  lemma NextPerforms<H>(e: Executable<H>, s: State<H>)
    requires About(e, s)
    ensures var insn := Current(e, s);
      && Ready(e, Counted(s))
      && (Safe(e.program, e.version, insn, s.reg[PC]) || Decode(e.version, insn.opc) == Unknown)
      && Next(e, s) == Perform(e, Counted(s), insn)
  {
    hide Perform, Decode, Fetch, Safe, Accepted;
    AcceptedIsSafe(e.program, e.version, s.reg[PC]);
  }

  // ---------------------------------------------------------------- computations

  /** The second operand: a register, a sign-extended immediate, or one that is not. */
  ghost predicate IsOperand(source: Source, imm: int, register: u64, b: u64) {
    match source
    case Reg => b == register
    case Imm => Agree(W64, b, imm)
    case LowImm => Agree(W32, b, imm) && Fits(W32, b)
  }

  lemma OperandLaw(source: Source, imm: int, register: u64)
    ensures IsOperand(source, imm, register, Operand(source, imm, register))
  {
    hide Pow2, Trunc;
    TruncLaw(W64, imm);
    TruncLaw(W32, imm);
  }

  /** The low bytes of a register, in the same or in the opposite order. */
  ghost predicate EndianMeans(big: bool, bytes: nat, a: u64, r: u64) {
    r < Pow2(8 * bytes) && forall k: nat :: k < bytes ==> Byte(r, k) == Byte(a, if big then bytes - 1 - k else k)
  }

  lemma LowBytes(a: nat, n: nat, k: nat)
    requires k < n
    ensures Byte(a % Pow2(8 * n), k) == Byte(a, k)
  {
    hide Pow2;
    var m := Pow2(8 * n);
    BytePowers(n, k);
    QuotientIsNat(a, m);
    BelowTop(a / m, a % m, Pow2(8 * k), Pow2(8 * (n - k) - 8));
    assert a == (a / m) * m + a % m;
  }

  lemma BytesOfWidths()
    ensures Pow2(16) == 0x1_0000 && Pow2(32) == 0x1_0000_0000 && Pow2(64) == WORD
  {
    hide Pow2;
    PowerOfByte();
    Pow2Adds(8, 8);
    Pow2Adds(16, 16);
    Pow2Adds(32, 32);
  }

  lemma EndianLaw(big: bool, imm: int, a: u64)
    requires imm == 16 || imm == 32 || imm == 64
    ensures EndianResult(big, imm, a).Ok? && EndianMeans(big, imm / 8, a, EndianResult(big, imm, a).value)
  {
    hide Pow2, Byte;
    var n: nat := imm / 8;
    BytesOfWidths();
    SwapLaw(a, n, 0);
    ModSmall(SwapBytes(a, n), WORD);
    ModSmall(a, WORD);
    var r := EndianResult(big, imm, a).value;
    assert 8 * n == imm && r == (if big then SwapBytes(a, n) else a % Pow2(imm));
    forall k: nat | k < n ensures Byte(r, k) == Byte(a, if big then n - 1 - k else k) {
      if big {
        SwapLaw(a, n, k);
      } else {
        LowBytes(a, n, k);
      }
    }
  }

  ghost predicate ComputeMeans(v: Version, op: Op, imm: int, a: u64, b: u64, r: u64)
    requires IsCompute(op)
  {
    match op
    case Arith(alu, w, _) => AluMeans(alu, w, v == V2, a, b, r)
    case Product(pqr, w, _) => PqrMeans(pqr, w, a, b, r)
    case Shifted(shift, w, _) => ShiftMeans(shift, w, a, b % Bits(w), r)
    case Endian(big) => imm in {16, 32, 64} && EndianMeans(big, imm / 8, a, r)
  }

  ghost predicate DividesByZero(op: Op, b: u64) {
    op.Product? && op.pqr in {Udiv, Urem, Sdiv, Srem} && Agree(op.w, b, 0)
  }

  /** The smallest signed number divided by minus one. */
  ghost predicate DivisionOverflows(op: Op, a: u64, b: u64) {
    && op.Product? && op.pqr in {Sdiv, Srem}
    && IsSignedValue(op.w, a, 0 - Pow2(Bits(op.w) - 1)) && IsSignedValue(op.w, b, -1)
  }

  lemma ZeroLaw(w: Width, b: u64)
    ensures Agree(w, b, 0) <==> Trunc(w, b) == 0
  {
    hide Trunc, Agree;
    AgreeIsEqual(w, b, 0);
    TruncZero(w);
  }

  lemma TruncZero(w: Width)
    ensures Trunc(w, 0) == 0
  {
  }

  lemma OverflowLaw(w: Width, a: u64, b: u64)
    ensures Overflows(w, a, b)
      <==> IsSignedValue(w, a, 0 - Pow2(Bits(w) - 1)) && IsSignedValue(w, b, -1)
  {
    hide Pow2, Signed;
    PowersOfWidths(w);
    var h: int := 0 - Pow2(Bits(w) - 1);
    if IsSignedValue(w, a, h) && IsSignedValue(w, b, -1) {
      SignedIsUnique(w, a, h);
      SignedIsUnique(w, b, -1);
    }
    SignedLaw(w, a);
    SignedLaw(w, b);
  }

  /** Only the operation that has no 32-bit form lacks one in the table. */
  lemma HighOrIsWide(v: Version, opc: byte)
    ensures Decode(v, opc).Arith? && Decode(v, opc).alu == HighOr ==> Decode(v, opc).w == W64
  {
    hide Decode32, Decode5, DecodePqr, DecodeJump, Decode64;
    Low32(v, opc / 16, SourceOf(opc));
    High64(v, opc / 16, SourceOf(opc));
    NoArithmetic(opc / 16, SourceOf(opc));
  }

  lemma Low32(v: Version, operation: nat, source: Source)
    ensures var op := Decode32(v, operation, source); op.Arith? ==> op.alu != HighOr
  {
  }

  lemma High64(v: Version, operation: nat, source: Source)
    ensures var op := Decode64(v, operation, source); op.Arith? ==> op.w == W64
  {
  }

  /** A computation fails as its operands say, or else gives what its name promises. */
  lemma ComputeLaw(v: Version, op: Op, imm: int, a: u64, b: u64)
    requires IsCompute(op) && (op.Arith? && op.alu == HighOr ==> op.w == W64)
    requires op.Product? && IsDivision(op.pqr) && op.source != Reg ==> Trunc(op.w, b) != 0
    requires op.Endian? ==> imm in {16, 32, 64}
    ensures match Compute(v, op, imm, a, b)
      case Ok(r) => !DividesByZero(op, b) && !DivisionOverflows(op, a, b) && ComputeMeans(v, op, imm, a, b, r)
      case Err(fault) =>
        if DividesByZero(op, b) then fault == DivideByZero
        else fault == DivideOverflow && DivisionOverflows(op, a, b)
  {
    hide Alu, Pqr, Shift, AluMeans, PqrMeans, ShiftMeans, Trunc, Agree, Overflows, IsSignedValue, EndianResult,
         EndianMeans;
    match op
    case Arith(alu, w, _) => AluLaw(alu, w, v == V2, a, b);
    case Product(pqr, w, _) =>
      ZeroLaw(w, b);
      OverflowLaw(w, a, b);
      if (IsDivision(pqr) ==> Trunc(w, b) != 0) && (IsSigned(pqr) ==> !Overflows(w, a, b)) {
        PqrLaw(pqr, w, a, b);
      }
    case Shifted(shift, w, _) => ShiftLaw(shift, w, a, b);
    case Endian(big) => EndianLaw(big, imm, a);
  }

  /** What a computing instruction does to the machine. */
  ghost predicate Computes<H>(v: Version, op: Op, insn: Insn, s: State<H>, b: u64, o: Outcome<H>)
    requires IsCompute(op) && s.due < s.previous && |s.reg| == 12 && insn.dst < 11 && s.reg[PC] < MAX
  {
    var a := s.reg[insn.dst];
    if DividesByZero(op, b) then o == Halt(Counted(s), Err(DivideByZero))
    else if DivisionOverflows(op, a, b) then o == Halt(Counted(s), Err(DivideOverflow))
    else o.More? && |o.state.reg| == 12 && var r := o.state.reg[insn.dst];
      ComputeMeans(v, op, insn.imm, a, b, r) && o.state == Advanced(s, insn.dst, r, s.reg[PC] + 1)
  }

  /** One step of a computation: its result, and nothing else but the program counter and the meter. */
  lemma ComputeStep<H>(e: Executable<H>, s: State<H>) returns (b: u64)
    requires About(e, s) && IsCompute(Decode(e.version, Current(e, s).opc))
    ensures var insn := Current(e, s); var op := Decode(e.version, insn.opc);
      && insn.dst < 11 && insn.src < 11 && s.reg[PC] < MAX
      && (!op.Endian? ==> IsOperand(op.source, insn.imm, s.reg[insn.src], b))
      && Computes(e.version, op, insn, s, b, Next(e, s))
  {
    hide Decode, Fetch, Compute, ComputeMeans, DividesByZero, DivisionOverflows, Operand, IsOperand, Trunc, Accepted,
         Next;
    var insn := Current(e, s);
    var op := Decode(e.version, insn.opc);
    NextPerforms(e, s);
    HighOrIsWide(e.version, insn.opc);
    b := Operand(SourceOfOp(op), insn.imm, s.reg[insn.src]);
    OperandLaw(SourceOfOp(op), insn.imm, s.reg[insn.src]);
    SameImmediate(op, insn.imm, s.reg[insn.src]);
    EndianSizes(op, insn.imm);
    ComputeLaw(e.version, op, insn.imm, s.reg[insn.dst], b);
  }

  lemma SameImmediate(op: Op, imm: int, register: u64)
    ensures op.Product? && op.source != Reg ==> Operand(op.source, imm, register) == Operand(op.source, imm, 0)
  {
  }

  lemma EndianSizes(op: Op, imm: int)
    requires op.Endian? ==> EndianResult(op.big, imm, 0).Ok?
    ensures op.Endian? ==> imm in {16, 32, 64}
  {
  }

  /** At the codes for or, and, exclusive or: the operands' bits are combined one by one, and nothing else changes. */
  lemma BitwiseStep<H>(e: Executable<H>, s: State<H>, w: Width, source: Source) returns (b: u64)
    requires About(e, s) && source != LowImm
    requires Current(e, s).opc - AluClass(w) - SourceBit(source) in {BPF_OR, BPF_AND, BPF_XOR}
    ensures IsOperand(source, Current(e, s).imm, if Current(e, s).src < 11 then s.reg[Current(e, s).src] else 0, b)
    ensures var insn := Current(e, s); var o := Next(e, s);
      && o.More? && |o.state.reg| == 12 && insn.dst < 11 && s.reg[PC] < MAX
      && var a, r := s.reg[insn.dst], o.state.reg[insn.dst];
      && o.state == Advanced(s, insn.dst, r, s.reg[PC] + 1) && Fits(w, r)
      && var operation := insn.opc - AluClass(w) - SourceBit(source);
      forall k: nat :: k < Bits(w) ==>
        (Bit(r, k) <==> (if operation == BPF_OR then Bit(a, k) || Bit(b, k)
                         else if operation == BPF_AND then Bit(a, k) && Bit(b, k)
                         else Bit(a, k) != Bit(b, k)))
  {
    hide Decode, Next, Fetch, Accepted, Bit, Fits, SourceBit, AluClass, IsOperand;
    BitwiseCodes(e.version, w, source);
    b := ComputeStep(e, s);
  }

  // ---------------------------------------------------------------- loads and stores

  /** The address of an access wraps around. */
  lemma AddressLaw(base: u64, off: int)
    ensures Agree(W64, Address(base, off), base + off)
  {
    hide Pow2, Trunc;
    TruncLaw(W64, base + off);
  }

  lemma NarrowLaw(size: nat, x: int)
    requires size in {1, 2, 4, 8}
    ensures Narrow(size, x) < Pow2(8 * size) && (Narrow(size, x) - x) % Pow2(8 * size) == 0
  {
    hide Pow2;
    PowerOfByte();
    BytesOfWidths();
    var m := Pow2(8 * size);
    assert Narrow(size, x) - x == (-(x / m)) * m + 0;
    DivModUnique(m, -(x / m), 0);
  }

  /** Loads and stores move 1, 2, 4 or 8 bytes. */
  lemma SizesOfAccesses(v: Version, opc: byte)
    ensures Decode(v, opc).Load? || Decode(v, opc).Store? ==> Decode(v, opc).size in {1, 2, 4, 8}
  {
    hide Decode32, Decode5, DecodePqr, DecodeJump, Decode64;
    SizesOfLoads(v, opc / 16, SourceOf(opc));
    SizesOfStores(v, opc / 16, SourceOf(opc));
    NoAccesses(opc / 16, SourceOf(opc));
  }

  lemma SizesOfLoads(v: Version, operation: nat, source: Source)
    ensures var op := Decode32(v, operation, source); !op.Store? && (op.Load? ==> op.size in {1, 2, 4, 8})
  {
  }

  lemma SizesOfStores(v: Version, operation: nat, source: Source)
    ensures var op := Decode64(v, operation, source); !op.Load? && (op.Store? ==> op.size in {1, 2, 4, 8})
  {
  }

  lemma NoAccesses(operation: nat, source: Source)
    ensures var op := DecodePqr(operation, source); !op.Load? && !op.Store?
    ensures var op := DecodeJump(operation, W32, source); !op.Load? && !op.Store?
    ensures var op := Decode5(operation, source); !op.Load? && !op.Store?
  {
  }

  lemma LoadStep<H>(e: Executable<H>, s: State<H>) returns (address: u64)
    requires About(e, s) && Decode(e.version, Current(e, s).opc).Load?
    ensures var insn := Current(e, s); var size := Decode(e.version, insn.opc).size;
      && insn.dst < 11 && insn.src < 11 && s.reg[PC] < MAX
      && Agree(W64, address, s.reg[insn.src] + insn.off)
      && var (result, host) := e.load(s.host, address, size);
      Next(e, s) == match result
        case Ok(x) => More(Advanced(s, insn.dst, x, s.reg[PC] + 1).(host := host))
        case Err(fault) => Halt(Counted(s).(host := host), Err(fault))
  {
    hide Decode, Fetch, Accepted, Next, Address, Agree;
    NextPerforms(e, s);
    var insn := Current(e, s);
    address := Address(s.reg[insn.src], insn.off);
    AddressLaw(s.reg[insn.src], insn.off);
  }

  lemma StoreStep<H>(e: Executable<H>, s: State<H>) returns (address: u64, value: u64, b: u64)
    requires About(e, s) && Decode(e.version, Current(e, s).opc).Store?
    ensures var insn := Current(e, s); var op := Decode(e.version, insn.opc);
      && insn.dst < 11 && insn.src < 11 && s.reg[PC] < MAX
      && Agree(W64, address, s.reg[insn.dst] + insn.off)
      && IsOperand(op.source, insn.imm, s.reg[insn.src], b)
      && value < Pow2(8 * op.size) && (value - b) % Pow2(8 * op.size) == 0
      && var (result, host) := e.store(s.host, value, address, op.size);
      Next(e, s) == match result
        case Ok(_) => More(Counted(s).(reg := s.reg[PC := s.reg[PC] + 1], host := host))
        case Err(fault) => Halt(Counted(s).(host := host), Err(fault))
  {
    hide Decode, Fetch, Accepted, Next, Address, Narrow, Agree, Operand, IsOperand, Pow2;
    NextPerforms(e, s);
    var insn := Current(e, s);
    var op := Decode(e.version, insn.opc);
    address := Address(s.reg[insn.dst], insn.off);
    AddressLaw(s.reg[insn.dst], insn.off);
    b := Operand(op.source, insn.imm, s.reg[insn.src]);
    OperandLaw(op.source, insn.imm, s.reg[insn.src]);
    SizesOfAccesses(e.version, insn.opc);
    value := Narrow(op.size, b);
    NarrowLaw(op.size, b);
  }

  /** A wide instruction loads the immediate of both of its halves and steps over the second. */
  lemma WideStep<H>(e: Executable<H>, s: State<H>)
    requires About(e, s) && Decode(e.version, Current(e, s).opc).Lddw?
    ensures var insn := Current(e, s); var o := Next(e, s);
      && insn.dst < 11 && InProgram(e.program, s.reg[PC] + 1)
      && o.More? && |o.state.reg| == 12 && var r := o.state.reg[insn.dst];
      && o.state == Advanced(s, insn.dst, r, s.reg[PC] + 2)
      && Agree(W32, r, insn.imm) && Agree(W32, r / Pow2(32), Fetch(e.program, s.reg[PC] + 1).imm)
  {
    hide Decode, Fetch, Accepted, Next, WideImmediate, Agree, Pow2;
    NextPerforms(e, s);
    WideLaw(e.program, s.reg[PC]);
  }

  lemma WideLaw(prog: seq<byte>, pc: nat)
    requires InProgram(prog, pc + 1)
    ensures var r := WideImmediate(prog, pc);
      Agree(W32, r, Fetch(prog, pc).imm) && Agree(W32, r / Pow2(32), Fetch(prog, pc + 1).imm)
  {
    hide Fetch, Pow2, Trunc;
    var x, y := Fetch(prog, pc).imm, Fetch(prog, pc + 1).imm;
    TruncLaw(W32, x);
    TruncLaw(W32, y);
    BytesOfWidths();
    var m := Pow2(32);
    DivModUnique(m, Trunc(W32, y), Trunc(W32, x));
    var q := (Trunc(W32, x) - x) / m;
    assert WideImmediate(prog, pc) - x == (Trunc(W32, y) + q) * m + 0;
    DivModUnique(m, Trunc(W32, y) + q, 0);
  }

  // ---------------------------------------------------------------- control

  lemma JumpStep<H>(e: Executable<H>, s: State<H>) returns (b: u64)
    requires About(e, s) && Decode(e.version, Current(e, s).opc).Jump?
    ensures var insn := Current(e, s); var op := Decode(e.version, insn.opc);
      && insn.dst < 11 && insn.src < 11 && s.reg[PC] < MAX
      && IsOperand(op.source, insn.imm, s.reg[insn.src], b)
      && InProgram(e.program, s.reg[PC] + 1 + insn.off)
      && Next(e, s) == More(Counted(s).(reg := s.reg[PC :=
           if HoldsMeans(op.condition, op.w, s.reg[insn.dst], b) then s.reg[PC] + 1 + insn.off else s.reg[PC] + 1]))
  {
    hide Decode, Fetch, Accepted, Next, Holds, HoldsMeans, Operand, IsOperand;
    NextPerforms(e, s);
    var insn := Current(e, s);
    var op := Decode(e.version, insn.opc);
    b := Operand(op.source, insn.imm, s.reg[insn.src]);
    OperandLaw(op.source, insn.imm, s.reg[insn.src]);
    HoldsLaw(op.condition, op.w, s.reg[insn.dst], b);
  }

  lemma UnknownStep<H>(e: Executable<H>, s: State<H>)
    requires About(e, s) && Decode(e.version, Current(e, s).opc) == Unknown
    ensures Next(e, s) == Halt(Counted(s), Err(UnsupportedInstruction))
  {
    hide Decode, Fetch, Accepted, Next;
    NextPerforms(e, s);
  }

  /** A function was called: the caller is in the frame that was free, and the run goes on at the target. */
  ghost predicate Entered<H>(e: Executable<H>, s: State<H>, target: int, o: Outcome<H>)
    requires Ready(e, s)
  {
    if s.depth + 1 == e.config.maxCallDepth then o.Halt? && o.result == Err(CallDepthExceeded)
    else if !InProgram(e.program, target) then o.Halt? && o.result == Err(CallOutsideTextSegment)
    else
      && o.More? && var t := o.state;
      && |t.reg| == 12 && t.reg[PC] == target && (forall r :: 0 <= r < 10 ==> t.reg[r] == s.reg[r])
      && (if e.version == V1 || e.version == V2 then t.reg[FRAME_POINTER] == s.reg[FRAME_POINTER]
          else Agree(W64, t.reg[FRAME_POINTER], s.reg[FRAME_POINTER] + e.config.stackFrameSize
                     * (if e.version == V0 && e.config.enableStackFrameGaps then 2 else 1)))
      && t.depth == s.depth + 1 && |t.frames| == |s.frames|
      && t.frames[s.depth]
         == Frame(s.reg[6], s.reg[7], s.reg[8], s.reg[9], s.reg[FRAME_POINTER], s.reg[PC] + 1)
      && (forall i :: 0 <= i < |s.frames| && i != s.depth ==> t.frames[i] == s.frames[i])
      && t.due == s.due && t.previous == s.previous && t.remaining == s.remaining && t.host == s.host
  }

  lemma EnterLaw<H>(e: Executable<H>, s: State<H>, target: int)
    requires Ready(e, s)
    ensures Entered(e, s, target, Enter(e, s, target))
  {
    hide Pow2, Trunc, Agree;
    TruncLaw(W64, s.reg[FRAME_POINTER] + Stride(e));
  }

  /** An indirect call goes to the instruction that holds the address in the register that the version names. */
  lemma CallRegisterStep<H>(e: Executable<H>, s: State<H>) returns (target: nat, distance: u64)
    requires About(e, s) && Decode(e.version, Current(e, s).opc).CallReg?
    ensures var insn := Current(e, s);
      var r := if e.version == V2 then insn.src else if SinceV3(e.version) then insn.dst else insn.imm;
      && 0 <= r < 10 && Agree(W64, distance, s.reg[r] - e.vmAddr)
      && target * 8 <= distance < target * 8 + 8
      && Ready(e, Counted(s)) && Entered(e, Counted(s), target, Next(e, s))
  {
    hide Decode, Fetch, Accepted, Next, Enter, Entered, Trunc, Agree;
    NextPerforms(e, s);
    var insn := Current(e, s);
    var r := CallRegister(insn, e.version);
    distance := Trunc(W64, s.reg[r] - e.vmAddr);
    TruncLaw(W64, s.reg[r] - e.vmAddr);
    target := distance / INSN_SIZE;
    EnterLaw(e, Counted(s), target);
  }

  /** The state behind a built-in function that returned `x`, before the program counter moves. */
  ghost function Answered<H>(s: State<H>, x: u64, host: H, left: u64): State<H>
    requires |s.reg| == 12
  {
    s.(reg := s.reg[0 := x], due := 0, previous := left, remaining := left, host := host)
  }

  /** A guest function that a call names, by its distance or by its key. */
  ghost function Guest<H>(e: Executable<H>, insn: Insn, pc: nat, key: nat): Option<int> {
    if SinceV3(e.version) then
      if insn.src == 1 && InProgram(e.program, pc + 1 + insn.imm) then Some(pc + 1 + insn.imm) else None
    else if key in e.functions then Some(e.functions[key]) else None
  }

  ghost predicate Called<H>(e: Executable<H>, s: State<H>, guest: Option<int>, resolved: bool, o: Outcome<H>)
    requires Ready(e, s)
  {
    if guest.Some? then Entered(e, s, guest.value, o)
    else if resolved then o == More(s.(reg := s.reg[PC := s.reg[PC] + 1]))
    else o == Halt(s, Err(UnsupportedInstruction))
  }

  lemma GuestLaw<H>(e: Executable<H>, s: State<H>, insn: Insn, key: nat, resolved: bool)
    requires Ready(e, s) && key == Trunc(W32, insn.imm)
    ensures Called(e, s, Guest(e, insn, s.reg[PC], key), resolved, CallGuest(e, s, insn, resolved))
  {
    hide Enter, Entered, Trunc;
    var target := CallTarget(e, insn, s.reg[PC]);
    if target.Some? {
      EnterLaw(e, s, target.value);
    }
  }

  /** A direct call runs the built-in function with its key, then the guest function, and fails without either. */
  lemma CallStep<H>(e: Executable<H>, s: State<H>) returns (key: nat)
    requires About(e, s) && Decode(e.version, Current(e, s).opc).CallImm?
    ensures Ready(e, Counted(s)) && Fits(W32, key) && Agree(W32, key, Current(e, s).imm)
    ensures var insn := Current(e, s); var guest := Guest(e, insn, s.reg[PC], key);
      if key in e.builtins && (SinceV3(e.version) ==> insn.src == 0) then
        var arguments := [s.reg[1], s.reg[2], s.reg[3], s.reg[4], s.reg[5]];
        var (result, host, left) := e.call(key, s.host, arguments, s.previous - s.due - 1);
        match result
        case Err(fault) => Next(e, s) == Halt(Counted(s).(due := 0, previous := left, remaining := left, host := host),
                                              Err(fault))
        case Ok(x) => Called(e, Answered(Counted(s), x, host, left), guest, true, Next(e, s))
      else Called(e, Counted(s), guest, false, Next(e, s))
  {
    hide Decode, Fetch, Accepted, Next, CallGuest, Called, Guest, Trunc, Agree, Fits;
    NextPerforms(e, s);
    var insn := Current(e, s);
    key := Trunc(W32, insn.imm);
    TruncLaw(W32, insn.imm);
    var t := Counted(s);
    assert s.reg[1..6] == [s.reg[1], s.reg[2], s.reg[3], s.reg[4], s.reg[5]];
    if BuiltinKey(e, insn).Some? {
      var (result, u) := Dispatch(e, t, key);
      if result.Ok? {
        GuestLaw(e, u.(reg := u.reg[0 := result.value]), insn, key, true);
      }
    } else {
      GuestLaw(e, t, insn, key, false);
    }
  }

  /** Leaving a function restores the caller; leaving the first one ends the run with what r0 holds. */
  lemma ExitStep<H>(e: Executable<H>, s: State<H>)
    requires About(e, s) && Decode(e.version, Current(e, s).opc).Exit?
    ensures s.depth == 0 ==> Next(e, s) == Halt(Counted(s), Ok(s.reg[0]))
    ensures s.depth > 0 ==> var f := s.frames[s.depth - 1]; var o := Next(e, s);
      && o.More? && o.state == Counted(s).(depth := s.depth - 1, reg := o.state.reg)
      && o.state.reg == s.reg[..6] + [f.r6, f.r7, f.r8, f.r9, f.framePointer, f.targetPc]
  {
    hide Decode, Fetch, Accepted, Next;
    NextPerforms(e, s);
    if s.depth > 0 {
      var f := s.frames[s.depth - 1];
      var reg := Next(e, s).state.reg;
      assert reg == s.reg[..6] + [f.r6, f.r7, f.r8, f.r9, f.framePointer, f.targetPc];
    }
  }
}
