/** The versions of the instruction set, its basic and wide encoding, and the table of its operations. */
module Instructions {
  import opened Words
  import opened Arithmetic

  type byte = x: int | 0 <= x < 256

  datatype Version = V0 | V1 | V2 | V3 | V4 | Reserved

  predicate ManualStackFrameBump(v: Version) { v == V1 || v == V2 }
  predicate StackFrameGaps(v: Version) { v == V0 }
  predicate EnablePqr(v: Version) { v == V2 }
  predicate ExplicitSignExtension(v: Version) { v == V2 }
  predicate SwapSubOperands(v: Version) { v == V2 }
  predicate DisableNeg(v: Version) { v == V2 }
  predicate CallxUsesSource(v: Version) { v == V2 }
  predicate DisableLddw(v: Version) { v == V2 }
  predicate DisableLe(v: Version) { v == V2 }
  predicate MoveMemoryClasses(v: Version) { v == V2 }
  predicate StaticSyscalls(v: Version) { v == V3 || v == V4 || v == Reserved }
  predicate EnableJmp32(v: Version) { v == V3 || v == V4 || v == Reserved }
  predicate CallxUsesDestination(v: Version) { v == V3 || v == V4 || v == Reserved }

  // ---------------------------------------------------------------- encoding

  const INSN_SIZE: nat := 8

  datatype Insn = Insn(opc: byte, dst: nat, src: nat, off: int, imm: int)

  /** What the fields of an encoded instruction can hold. */
  ghost predicate Encodable(i: Insn) {
    i.dst < 16 && i.src < 16 && -0x8000 <= i.off < 0x8000 && -0x8000_0000 <= i.imm < 0x8000_0000
  }

  /** The number of whole instructions. */
  function Count(prog: seq<byte>): nat {
    |prog| / INSN_SIZE
  }

  predicate InProgram(prog: seq<byte>, pc: int) {
    0 <= pc && (pc + 1) * INSN_SIZE <= |prog|
  }

  /** Two bytes or two halves put together, the low one first. */
  function Join(base: nat, low: int, high: int): int {
    low + base * high
  }

  function SignedHalf(x: int): int {
    if x < 0x8000 then x else x - 0x1_0000
  }

  function Parse(b: seq<byte>): Insn
    requires |b| == INSN_SIZE
  {
    Insn(b[0], b[1] % 16, b[1] / 16, SignedHalf(Join(0x100, b[2], b[3])),
         Signed(W32, Join(0x1_0000, Join(0x100, b[4], b[5]), Join(0x100, b[6], b[7]))))
  }

  /** The instruction with index `pc`. */
  function Fetch(prog: seq<byte>, pc: nat): Insn
    requires InProgram(prog, pc)
  {
    Parse(prog[pc * INSN_SIZE..pc * INSN_SIZE + INSN_SIZE])
  }

  /** The 64-bit immediate that an instruction and the one behind it hold together. */
  function WideImmediate(prog: seq<byte>, pc: nat): u64
    requires InProgram(prog, pc + 1)
  {
    Trunc(W32, Fetch(prog, pc).imm) + 0x1_0000_0000 * Trunc(W32, Fetch(prog, pc + 1).imm)
  }

  /** The low two bytes, the lowest first. */
  function Half(x: int): (byte, byte) {
    (x % 0x100, (x / 0x100) % 0x100)
  }

  function Encode(i: Insn): (b: seq<byte>)
    requires i.dst < 16 && i.src < 16
    ensures |b| == INSN_SIZE
  {
    var off, low, high := Half(i.off), Half(i.imm), Half(i.imm / 0x1_0000);
    [i.opc, 16 * i.src + i.dst, off.0, off.1, low.0, low.1, high.0, high.1]
  }

  /** Decoding undoes encoding. */
  lemma ParseEncode(i: Insn)
    requires Encodable(i)
    ensures Parse(Encode(i)) == i
  {
    hide Half, Join, Signed, SignedHalf;
    HalfRoundTrip(i.off);
    HalfRoundTrip(i.imm);
    HalfRoundTrip(i.imm / 0x1_0000);
    HalvesJoin(i.imm);
    HalfIsSigned(i.off);
  }

  /** Encoding undoes decoding. */
  lemma EncodeParse(b: seq<byte>)
    requires |b| == INSN_SIZE
    ensures Encodable(Parse(b)) && Encode(Parse(b)) == b
  {
    hide Half, Signed, SignedHalf;
    var i := Parse(b);
    SplitSigned(Join(0x100, b[4], b[5]), Join(0x100, b[6], b[7]));
    HalfSigned(Join(0x100, b[2], b[3]));
    hide Join;
    BytesRoundTrip(b[2], b[3], i.off);
    BytesRoundTrip(b[4], b[5], i.imm);
    BytesRoundTrip(b[6], b[7], i.imm / 0x1_0000);
  }

  lemma HalfRoundTrip(x: int)
    ensures Join(0x100, Half(x).0, Half(x).1) == x % 0x1_0000
  {
  }

  lemma BytesRoundTrip(a: byte, b: byte, x: int)
    requires x % 0x1_0000 == Join(0x100, a, b)
    ensures Half(x) == (a, b)
  {
    var k := x / 0x1_0000;
    assert x == 0x100 * (0x100 * k + b) + a;
    assert x / 0x100 == 0x100 * k + b;
  }

  lemma HalfSigned(x: int)
    requires 0 <= x < 0x1_0000
    ensures -0x8000 <= SignedHalf(x) < 0x8000 && SignedHalf(x) % 0x1_0000 == x
  {
  }

  lemma SplitSigned(low: int, high: int)
    requires 0 <= low < 0x1_0000 && 0 <= high < 0x1_0000
    ensures var x := Signed(W32, Join(0x1_0000, low, high));
      -0x8000_0000 <= x < 0x8000_0000 && x % 0x1_0000 == low && (x / 0x1_0000) % 0x1_0000 == high
  {
    var x := Signed(W32, Join(0x1_0000, low, high));
    var k := if high < 0x8000 then high else high - 0x1_0000;
    assert x == 0x1_0000 * k + low;
    assert x / 0x1_0000 == k;
  }

  lemma HalvesJoin(x: int)
    requires -0x8000_0000 <= x < 0x8000_0000
    ensures Signed(W32, Join(0x1_0000, x % 0x1_0000, (x / 0x1_0000) % 0x1_0000)) == x
  {
    var y := x / 0x1_0000;
    assert x == 0x1_0000 * y + x % 0x1_0000 && -0x8000 <= y < 0x8000;
  }

  lemma HalfIsSigned(x: int)
    requires -0x8000 <= x < 0x8000
    ensures SignedHalf(x % 0x1_0000) == x
  {
  }

  // ---------------------------------------------------------------- operations

  /** Where the second operand comes from; a low immediate is not sign extended. */
  datatype Source = Imm | LowImm | Reg

  datatype Op =
    | Lddw
    | Load(size: nat)
    | Store(size: nat, source: Source)
    | Arith(alu: AluOp, w: Width, source: Source)
    | Product(pqr: PqrOp, w: Width, source: Source)
    | Shifted(shift: ShiftOp, w: Width, source: Source)
    | Endian(big: bool)
    | Jump(condition: Condition, w: Width, source: Source)
    | CallImm
    | CallReg
    | Exit
    | Unknown

  function SourceOf(opc: byte): Source {
    if (opc / 8) % 2 == 1 then Reg else Imm
  }

  /** The operation that an operation code stands for in a version. */
  function Decode(v: Version, opc: byte): Op {
    var code, source := opc / 16, SourceOf(opc);
    match opc % 8
    case 0 => if opc == 0x18 && !DisableLddw(v) then Lddw else Unknown
    case 1 => if !MoveMemoryClasses(v) && LegacySize(opc) > 0 then Load(LegacySize(opc)) else Unknown
    case 2 => if !MoveMemoryClasses(v) && LegacySize(opc) > 0 then Store(LegacySize(opc), Imm) else Unknown
    case 3 => if !MoveMemoryClasses(v) && LegacySize(opc) > 0 then Store(LegacySize(opc), Reg) else Unknown
    case 4 => Decode32(v, code, source)
    case 5 => Decode5(code, source)
    case 6 =>
      if EnablePqr(v) then DecodePqr(code, source)
      else if EnableJmp32(v) then DecodeJump(code, W32, source) else Unknown
    case _ => Decode64(v, code, source)
  }

  /** Bytes moved by the memory instructions of the old classes. */
  function LegacySize(opc: byte): nat {
    match opc / 8
    case 12 => 4
    case 13 => 2
    case 14 => 1
    case 15 => 8
    case _ => 0
  }

  /** Bytes moved by the memory instructions of the new classes. */
  function NewSize(code: nat): nat {
    match code
    case 2 => 1
    case 3 => 2
    case 8 => 4
    case _ => 8
  }

  function Decode32(v: Version, code: nat, source: Source): Op {
    match code
    case 0 => Arith(Add, W32, source)
    case 1 => Arith(if source == Imm && SwapSubOperands(v) then SubFrom else Sub, W32, source)
    case 2 => if !EnablePqr(v) then Arith(Mul, W32, source) else NewLoad(v, code, source)
    case 3 => if !EnablePqr(v) then Product(Udiv, W32, source) else NewLoad(v, code, source)
    case 4 => Arith(Or, W32, source)
    case 5 => Arith(And, W32, source)
    case 6 => Shifted(Lsh, W32, source)
    case 7 => Shifted(Rsh, W32, source)
    case 8 => if source == Imm && !DisableNeg(v) then Arith(Neg, W32, Imm) else NewLoad(v, code, source)
    case 9 => if !EnablePqr(v) then Product(Urem, W32, source) else NewLoad(v, code, source)
    case 10 => Arith(Xor, W32, source)
    case 11 => Arith(if source == Reg && ExplicitSignExtension(v) then MoveSigned else Move, W32, source)
    case 12 => Shifted(Arsh, W32, source)
    case 13 => if source == Reg then Endian(true) else if !DisableLe(v) then Endian(false) else Unknown
    case _ => Unknown
  }

  function NewLoad(v: Version, code: nat, source: Source): Op {
    if source == Reg && MoveMemoryClasses(v) then Load(NewSize(code)) else Unknown
  }

  function NewStore(v: Version, code: nat, source: Source): Op {
    if MoveMemoryClasses(v) then Store(NewSize(code), source) else Unknown
  }

  function Decode64(v: Version, code: nat, source: Source): Op {
    match code
    case 0 => Arith(Add, W64, source)
    case 1 => Arith(if source == Imm && SwapSubOperands(v) then SubFrom else Sub, W64, source)
    case 2 => if !EnablePqr(v) then Product(Lmul, W64, source) else NewStore(v, code, source)
    case 3 => if !EnablePqr(v) then Product(Udiv, W64, source) else NewStore(v, code, source)
    case 4 => Arith(Or, W64, source)
    case 5 => Arith(And, W64, source)
    case 6 => Shifted(Lsh, W64, source)
    case 7 => Shifted(Rsh, W64, source)
    case 8 => if source == Imm && !DisableNeg(v) then Arith(Neg, W64, Imm) else NewStore(v, code, source)
    case 9 => if !EnablePqr(v) then Product(Urem, W64, source) else NewStore(v, code, source)
    case 10 => Arith(Xor, W64, source)
    case 11 => Arith(Move, W64, source)
    case 12 => Shifted(Arsh, W64, source)
    case 15 => if source == Imm && DisableLddw(v) then Arith(HighOr, W64, Imm) else Unknown
    case _ => Unknown
  }

  function DecodePqr(code: nat, source: Source): Op {
    var low := if source == Imm then LowImm else source;
    match code
    case 3 => Product(Uhmul, W64, low)
    case 4 => Product(Udiv, W32, source)
    case 5 => Product(Udiv, W64, low)
    case 6 => Product(Urem, W32, source)
    case 7 => Product(Urem, W64, low)
    case 8 => Product(Lmul, W32, source)
    case 9 => Product(Lmul, W64, source)
    case 11 => Product(Shmul, W64, source)
    case 12 => Product(Sdiv, W32, source)
    case 13 => Product(Sdiv, W64, source)
    case 14 => Product(Srem, W32, source)
    case 15 => Product(Srem, W64, source)
    case _ => Unknown
  }

  function DecodeJump(code: nat, w: Width, source: Source): Op {
    match code
    case 1 => Jump(Eq, w, source)
    case 2 => Jump(Gt, w, source)
    case 3 => Jump(Ge, w, source)
    case 4 => Jump(Set, w, source)
    case 5 => Jump(Ne, w, source)
    case 6 => Jump(Sgt, w, source)
    case 7 => Jump(Sge, w, source)
    case 10 => Jump(Lt, w, source)
    case 11 => Jump(Le, w, source)
    case 12 => Jump(Slt, w, source)
    case 13 => Jump(Sle, w, source)
    case _ => Unknown
  }

  function Decode5(code: nat, source: Source): Op {
    match code
    case 0 => if source == Imm then Jump(Always, W64, Imm) else Unknown
    case 8 => if source == Imm then CallImm else CallReg
    case 9 => if source == Imm then Exit else Unknown
    case _ => DecodeJump(code, W64, source)
  }
}
