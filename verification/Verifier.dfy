/** The static checks that a program passes before it is run. */
module Verifier {
  import opened Options
  import opened Words
  import opened Arithmetic
  import opened Instructions
  import opened Opcodes

  datatype VerifierError =
    | ProgramLengthNotMultiple
    | NoProgram
    | DivisionByZero(at: nat)
    | UnsupportedLEBEArgument(at: nat)
    | LDDWCannotBeLast
    | IncompleteLDDW(at: nat)
    | JumpOutOfCode(target: nat, at: nat)
    | JumpToMiddleOfLDDW(target: nat, at: nat)
    | InvalidSourceRegister(at: nat)
    | CannotWriteR10(at: nat)
    | InvalidDestinationRegister(at: nat)
    | UnknownOpCode(opc: byte, at: nat)
    | ShiftWithOverflow(amount: nat, bits: nat, at: nat)
    | InvalidRegister(at: nat)
    | UnalignedImmediate(at: nat)

  type Check = Result<(), VerifierError>

  const FRAME_POINTER: nat := 10

  function CheckLength(prog: seq<byte>): Check {
    if |prog| % INSN_SIZE != 0 then Err(ProgramLengthNotMultiple)
    else if |prog| == 0 then Err(NoProgram)
    else Ok(())
  }

  function CheckNonZero(insn: Insn, at: nat): Check {
    if insn.imm == 0 then Err(DivisionByZero(at)) else Ok(())
  }

  function CheckEndian(insn: Insn, at: nat): Check {
    if insn.imm == 16 || insn.imm == 32 || insn.imm == 64 then Ok(()) else Err(UnsupportedLEBEArgument(at))
  }

  function CheckAligned(insn: Insn, at: nat, alignment: nat): Check
    requires alignment > 0
  {
    if insn.imm % alignment == 0 then Ok(()) else Err(UnalignedImmediate(at))
  }

  function CheckLoadWide(prog: seq<byte>, at: nat): Check {
    if (at + 1) * INSN_SIZE >= |prog| then Err(LDDWCannotBeLast)
    else if !InProgram(prog, at + 1) || Fetch(prog, at + 1).opc != 0 then Err(IncompleteLDDW(at))
    else Ok(())
  }

  function CheckJump(prog: seq<byte>, insn: Insn, at: nat): Check {
    var target := at + 1 + insn.off;
    if !InProgram(prog, target) then Err(JumpOutOfCode(Trunc(W64, target), at))
    else if Fetch(prog, target).opc == 0 then Err(JumpToMiddleOfLDDW(target, at))
    else Ok(())
  }

  function CheckRegisters(insn: Insn, store: bool, at: nat, v: Version): Check {
    if insn.src > 10 then Err(InvalidSourceRegister(at))
    else if insn.dst <= 9 || (insn.dst == 10 && store) then Ok(())
    else if insn.dst == 10 && ManualStackFrameBump(v) && insn.opc == 0x07 then Ok(())
    else if insn.dst == 10 then Err(CannotWriteR10(at))
    else Err(InvalidDestinationRegister(at))
  }

  function CheckShift(insn: Insn, at: nat, bits: nat): Check {
    if insn.imm < 0 || insn.imm >= bits then Err(ShiftWithOverflow(Trunc(W64, insn.imm), bits, at)) else Ok(())
  }

  /** The number of the register that an indirect call reads. */
  function CallRegister(insn: Insn, v: Version): int {
    if CallxUsesSource(v) then insn.src else if CallxUsesDestination(v) then insn.dst else insn.imm
  }

  function CheckCallRegister(insn: Insn, at: nat, v: Version): Check {
    if 0 <= CallRegister(insn, v) < 10 then Ok(()) else Err(InvalidRegister(at))
  }

  /** The check that belongs to the operation. */
  function CheckOperation(prog: seq<byte>, v: Version, insn: Insn, at: nat): Check {
    match Decode(v, insn.opc)
    case Lddw => CheckLoadWide(prog, at)
    case Product(op, _, source) => if IsDivision(op) && source != Reg then CheckNonZero(insn, at) else Ok(())
    case Shifted(_, w, source) => if source != Reg then CheckShift(insn, at, Bits(w)) else Ok(())
    case Endian(_) => CheckEndian(insn, at)
    case Arith(op, w, source) =>
      if op == Add && w == W64 && source == Imm && insn.dst == FRAME_POINTER && ManualStackFrameBump(v)
      then CheckAligned(insn, at, 64) else Ok(())
    case Jump(_, _, _) => CheckJump(prog, insn, at)
    case CallReg => CheckCallRegister(insn, at, v)
    case Unknown => Err(UnknownOpCode(insn.opc, at))
    case _ => Ok(())
  }

  /** All checks of one instruction; a wide instruction reports its registers at its second half. */
  function CheckInstruction(prog: seq<byte>, v: Version, at: nat): Check
    requires InProgram(prog, at)
  {
    var insn := Fetch(prog, at);
    var op := Decode(v, insn.opc);
    var first := CheckOperation(prog, v, insn, at);
    if first.Err? then first else CheckRegisters(insn, op.Store?, if op.Lddw? then at + 1 else at, v)
  }

  // ---------------------------------------------------------------- what is accepted

  /** The instruction follows a wide one. */
  ghost predicate SecondHalf(prog: seq<byte>, v: Version, at: nat)
    requires InProgram(prog, at)
  {
    at > 0 && Decode(v, Fetch(prog, at - 1).opc) == Lddw
  }

  ghost predicate Passes(prog: seq<byte>, v: Version, at: nat)
    requires InProgram(prog, at)
  {
    SecondHalf(prog, v, at) || CheckInstruction(prog, v, at).Ok?
  }

  ghost predicate PassesBefore(prog: seq<byte>, v: Version, n: nat) {
    forall i: nat :: i < n && InProgram(prog, i) ==> Passes(prog, v, i)
  }

  /** Every instruction that is not a second half passes its checks. */
  ghost predicate Accepted(prog: seq<byte>, v: Version) {
    CheckLength(prog).Ok? && PassesBefore(prog, v, Count(prog))
  }

  // ---------------------------------------------------------------- the rules, field by field

  /** The addition of an immediate to the frame pointer, which versions without fixed frames use. */
  ghost predicate BumpsStack(v: Version, insn: Insn) {
    (v == V1 || v == V2) && insn.opc == BPF_ALU64_STORE + BPF_K + BPF_ADD && insn.dst == 10
  }

  ghost predicate IsImmediateDivision(op: Op) {
    op.Product? && op.pqr in {Udiv, Urem, Sdiv, Srem} && op.source != Reg
  }

  /** The register that holds the target of an indirect call. */
  ghost function TargetRegister(v: Version, insn: Insn): int {
    if v == V2 then insn.src else if SinceV3(v) then insn.dst else insn.imm
  }

  /** The operation exists, and its immediate and its target are good. */
  ghost predicate GoodOperation(prog: seq<byte>, v: Version, at: nat, insn: Insn) {
    var op := Decode(v, insn.opc);
    && op != Unknown
    && (op.Shifted? && op.source != Reg ==> 0 <= insn.imm < Bits(op.w))
    && (BumpsStack(v, insn) ==> insn.imm % 64 == 0)
    && (IsImmediateDivision(op) ==> insn.imm != 0)
    && (op.Endian? ==> insn.imm in {16, 32, 64})
    && (op.Jump? ==> 0 <= at + 1 + insn.off < Count(prog) && Fetch(prog, at + 1 + insn.off).opc != 0)
    && (op.Lddw? ==> at + 1 < Count(prog) && Fetch(prog, at + 1).opc == 0)
    && (op.CallReg? ==> 0 <= TargetRegister(v, insn) < 10)
  }

  /** The registers exist, and only stores and stack bumps name the frame pointer as their destination. */
  ghost predicate GoodRegisters(v: Version, insn: Insn) {
    insn.src <= 10 && (insn.dst <= 9 || (insn.dst == 10 && (Decode(v, insn.opc).Store? || BumpsStack(v, insn))))
  }

  ghost predicate GoodInstruction(prog: seq<byte>, v: Version, at: nat)
    requires InProgram(prog, at)
  {
    GoodOperation(prog, v, at, Fetch(prog, at)) && GoodRegisters(v, Fetch(prog, at))
  }

  /** The program is not empty, is made of whole instructions, and all but second halves are good. */
  ghost predicate GoodProgram(prog: seq<byte>, v: Version) {
    && |prog| > 0 && |prog| % INSN_SIZE == 0
    && forall at: nat :: at < Count(prog) ==> SecondHalf(prog, v, at) || GoodInstruction(prog, v, at)
  }

  lemma OnlyBumpCode(v: Version, opc: byte)
    ensures Decode(v, opc) == Arith(Add, W64, Imm) <==> opc == BPF_ALU64_STORE + BPF_K + BPF_ADD
  {
    hide Decode32, Decode5, DecodePqr, DecodeJump, Decode64;
    var operation, source := opc / 16, SourceOf(opc);
    Additions64(v, operation, source);
    Arithmetic32(v, operation, source);
    NoArithmetic(operation, source);
  }

  lemma Additions64(v: Version, operation: nat, source: Source)
    ensures Decode64(v, operation, source) == Arith(Add, W64, Imm) <==> operation == 0 && source == Imm
  {
  }

  lemma Arithmetic32(v: Version, operation: nat, source: Source)
    ensures var op := Decode32(v, operation, source); op.Arith? ==> op.w == W32
  {
  }

  lemma NoArithmetic(operation: nat, source: Source)
    ensures !DecodePqr(operation, source).Arith? && !DecodeJump(operation, W32, source).Arith?
    ensures !Decode5(operation, source).Arith?
  {
  }

  lemma OperationIsGood(prog: seq<byte>, v: Version, at: nat, insn: Insn)
    requires InProgram(prog, at)
    ensures CheckOperation(prog, v, insn, at).Ok? <==> GoodOperation(prog, v, at, insn)
  {
    hide Decode, Fetch;
    OnlyBumpCode(v, insn.opc);
  }

  lemma PassesIfGood(prog: seq<byte>, v: Version, at: nat)
    requires InProgram(prog, at)
    ensures CheckInstruction(prog, v, at).Ok? <==> GoodInstruction(prog, v, at)
  {
    hide Decode, Fetch, CheckOperation, GoodOperation;
    OperationIsGood(prog, v, at, Fetch(prog, at));
  }

  /** The programs that are accepted, field by field. */
  lemma AcceptedIfGood(prog: seq<byte>, v: Version)
    ensures Accepted(prog, v) <==> GoodProgram(prog, v)
  {
    hide Decode, Fetch, CheckInstruction, GoodInstruction;
    forall at: nat | at < Count(prog)
      ensures InProgram(prog, at) && (CheckInstruction(prog, v, at).Ok? <==> GoodInstruction(prog, v, at))
    {
      PassesIfGood(prog, v, at);
    }
    if Accepted(prog, v) {
      forall at: nat | at < Count(prog) ensures SecondHalf(prog, v, at) || GoodInstruction(prog, v, at) {
        assert Passes(prog, v, at);
      }
    }
  }

  /** What is wrong with an instruction that is refused with an error. */
  ghost predicate Blames(prog: seq<byte>, v: Version, at: nat, error: VerifierError)
    requires InProgram(prog, at)
  {
    var insn := Fetch(prog, at);
    var op := Decode(v, insn.opc);
    var target := at + 1 + insn.off;
    var last := if op.Lddw? then at + 1 else at;
    match error
    case ProgramLengthNotMultiple => false
    case NoProgram => false
    case UnknownOpCode(opc, k) => op == Unknown && opc == insn.opc && k == at
    case DivisionByZero(k) => IsImmediateDivision(op) && insn.imm == 0 && k == at
    case UnsupportedLEBEArgument(k) => op.Endian? && insn.imm !in {16, 32, 64} && k == at
    case LDDWCannotBeLast => op.Lddw? && at + 1 == Count(prog)
    case IncompleteLDDW(k) => op.Lddw? && at + 1 < Count(prog) && Fetch(prog, at + 1).opc != 0 && k == at
    case JumpOutOfCode(t, k) =>
      op.Jump? && !(0 <= target < Count(prog)) && 0 <= t < WORD && (t - target) % WORD == 0 && k == at
    case JumpToMiddleOfLDDW(t, k) =>
      op.Jump? && 0 <= target < Count(prog) && Fetch(prog, target).opc == 0 && t == target && k == at
    case ShiftWithOverflow(amount, bits, k) =>
      && op.Shifted? && op.source != Reg && !(0 <= insn.imm < Bits(op.w)) && bits == Bits(op.w)
      && 0 <= amount < WORD && (amount - insn.imm) % WORD == 0 && k == at
    case UnalignedImmediate(k) => BumpsStack(v, insn) && insn.imm % 64 != 0 && k == at
    case InvalidRegister(k) => op.CallReg? && !(0 <= TargetRegister(v, insn) < 10) && k == at
    case InvalidSourceRegister(k) => GoodOperation(prog, v, at, insn) && insn.src > 10 && k == last
    case CannotWriteR10(k) =>
      GoodOperation(prog, v, at, insn) && insn.src <= 10 && insn.dst == 10 && !GoodRegisters(v, insn) && k == last
    case InvalidDestinationRegister(k) =>
      GoodOperation(prog, v, at, insn) && insn.src <= 10 && insn.dst > 10 && k == last
  }

  lemma OperationIsBlamed(prog: seq<byte>, v: Version, at: nat)
    requires InProgram(prog, at) && |prog| % INSN_SIZE == 0 && CheckOperation(prog, v, Fetch(prog, at), at).Err?
    ensures Blames(prog, v, at, CheckOperation(prog, v, Fetch(prog, at), at).error)
  {
    hide Decode, Fetch, GoodOperation, GoodRegisters;
    OnlyBumpCode(v, Fetch(prog, at).opc);
  }

  /** An instruction is refused with the error that says what is wrong with it. */
  lemma ErrorIsBlamed(prog: seq<byte>, v: Version, at: nat)
    requires InProgram(prog, at) && |prog| % INSN_SIZE == 0 && CheckInstruction(prog, v, at).Err?
    ensures Blames(prog, v, at, CheckInstruction(prog, v, at).error)
  {
    var insn := Fetch(prog, at);
    hide Decode, Fetch, CheckOperation, GoodOperation;
    OperationIsGood(prog, v, at, insn);
    if CheckOperation(prog, v, insn, at).Err? {
      hide Blames;
      OperationIsBlamed(prog, v, at);
    }
  }

  // ---------------------------------------------------------------- the loop

  lemma WideHasSecondHalf(prog: seq<byte>, v: Version, at: nat)
    requires InProgram(prog, at) && Decode(v, Fetch(prog, at).opc) == Lddw && CheckInstruction(prog, v, at).Ok?
    ensures InProgram(prog, at + 1) && Fetch(prog, at + 1).opc == 0
  {
    hide Decode, Fetch, CheckRegisters;
  }

  /** Operation code zero stands for nothing. */
  lemma ZeroFails(prog: seq<byte>, v: Version, at: nat)
    requires InProgram(prog, at) && Fetch(prog, at).opc == 0
    ensures Decode(v, 0) == Unknown && CheckInstruction(prog, v, at).Err?
  {
    hide Fetch, CheckRegisters;
  }

  /** Operation code zero marks second halves and nothing else. */
  lemma {:induction false} ZeroIsSecondHalf(prog: seq<byte>, v: Version, at: nat)
    requires Accepted(prog, v) && InProgram(prog, at)
    ensures Fetch(prog, at).opc == 0 <==> SecondHalf(prog, v, at)
    decreases at
  {
    hide CheckInstruction, Decode, Fetch;
    assert Passes(prog, v, at);
    if Fetch(prog, at).opc == 0 {
      ZeroFails(prog, v, at);
    } else if SecondHalf(prog, v, at) {
      assert Passes(prog, v, at - 1);
      ZeroIsSecondHalf(prog, v, at - 1);
      if Fetch(prog, at - 1).opc == 0 {
        ZeroFails(prog, v, at - 1);
      } else {
        WideHasSecondHalf(prog, v, at - 1);
      }
    }
  }

  /** Everything up to the next start is as good as the instruction that starts here. */
  lemma NextStart(prog: seq<byte>, v: Version, at: nat)
    requires InProgram(prog, at) && PassesBefore(prog, v, at) && !SecondHalf(prog, v, at)
    requires CheckInstruction(prog, v, at).Ok?
    ensures var next := if Decode(v, Fetch(prog, at).opc).Lddw? then at + 2 else at + 1;
      && PassesBefore(prog, v, next) && next <= Count(prog)
      && (InProgram(prog, next) ==> !SecondHalf(prog, v, next))
  {
    hide CheckInstruction, Decode, Fetch;
    if Decode(v, Fetch(prog, at).opc).Lddw? {
      WideHasSecondHalf(prog, v, at);
      ZeroFails(prog, v, at + 1);
      assert SecondHalf(prog, v, at + 1);
      assert PassesBefore(prog, v, at + 1);
    }
  }

  /** Goes through the program instruction by instruction, and stops at the first that fails a check. */
  method Verify(prog: seq<byte>, v: Version) returns (r: Check)
    ensures r.Ok? <==> GoodProgram(prog, v)
    ensures r.Ok? <==> Accepted(prog, v)
    ensures |prog| % INSN_SIZE != 0 ==> r == Err(ProgramLengthNotMultiple)
    ensures |prog| == 0 ==> r == Err(NoProgram)
    ensures |prog| > 0 && |prog| % INSN_SIZE == 0 && r.Err? ==> exists k: nat ::
      && InProgram(prog, k) && PassesBefore(prog, v, k) && !SecondHalf(prog, v, k)
      && r == CheckInstruction(prog, v, k) && Blames(prog, v, k, r.error)
  {
    hide CheckInstruction, Decode, Fetch, Blames, GoodProgram;
    AcceptedIfGood(prog, v);
    r := CheckLength(prog);
    if r.Err? {
      return;
    }
    var at: nat := 0;
    while (at + 1) * INSN_SIZE <= |prog|
      invariant at <= Count(prog) && PassesBefore(prog, v, at)
      invariant InProgram(prog, at) ==> !SecondHalf(prog, v, at)
    {
      r := CheckInstruction(prog, v, at);
      if r.Err? {
        assert !Passes(prog, v, at);
        ErrorIsBlamed(prog, v, at);
        return;
      }
      NextStart(prog, v, at);
      at := if Decode(v, Fetch(prog, at).opc).Lddw? then at + 2 else at + 1;
    }
    if at != |prog| / INSN_SIZE {
      return Err(JumpOutOfCode(at, at));
    }
    r := Ok(());
  }
}
