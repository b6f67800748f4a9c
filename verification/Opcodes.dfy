/** The operation codes by name, and what each of them stands for in every version of the instruction set. */
module Opcodes {
  import opened Arithmetic
  import opened Instructions

  // ---------------------------------------------------------------- classes

  const BPF_LD: byte := 0x00
  const BPF_LDX: byte := 0x01
  const BPF_ST: byte := 0x02
  const BPF_STX: byte := 0x03
  const BPF_ALU32_LOAD: byte := 0x04
  const BPF_JMP64: byte := 0x05
  const BPF_JMP32: byte := 0x06
  const BPF_PQR: byte := 0x06
  const BPF_ALU64_STORE: byte := 0x07

  // ---------------------------------------------------------------- sizes, modes and sources

  const BPF_W: byte := 0x00
  const BPF_H: byte := 0x08
  const BPF_B: byte := 0x10
  const BPF_DW: byte := 0x18
  const BPF_1B: byte := 0x20
  const BPF_2B: byte := 0x30
  const BPF_4B: byte := 0x80
  const BPF_8B: byte := 0x90

  const BPF_IMM: byte := 0x00
  const BPF_MEM: byte := 0x60

  const BPF_K: byte := 0x00
  const BPF_X: byte := 0x08

  // ---------------------------------------------------------------- operations

  const BPF_ADD: byte := 0x00
  const BPF_SUB: byte := 0x10
  const BPF_MUL: byte := 0x20
  const BPF_DIV: byte := 0x30
  const BPF_OR: byte := 0x40
  const BPF_AND: byte := 0x50
  const BPF_LSH: byte := 0x60
  const BPF_RSH: byte := 0x70
  const BPF_NEG: byte := 0x80
  const BPF_MOD: byte := 0x90
  const BPF_XOR: byte := 0xa0
  const BPF_MOV: byte := 0xb0
  const BPF_ARSH: byte := 0xc0
  const BPF_END: byte := 0xd0
  const BPF_HOR: byte := 0xf0

  const BPF_UHMUL: byte := 0x20
  const BPF_UDIV: byte := 0x40
  const BPF_UREM: byte := 0x60
  const BPF_LMUL: byte := 0x80
  const BPF_SHMUL: byte := 0xa0
  const BPF_SDIV: byte := 0xc0
  const BPF_SREM: byte := 0xe0

  const BPF_JA: byte := 0x00
  const BPF_JEQ: byte := 0x10
  const BPF_JGT: byte := 0x20
  const BPF_JGE: byte := 0x30
  const BPF_JSET: byte := 0x40
  const BPF_JNE: byte := 0x50
  const BPF_JSGT: byte := 0x60
  const BPF_JSGE: byte := 0x70
  const BPF_CALL: byte := 0x80
  const BPF_EXIT: byte := 0x90
  const BPF_JLT: byte := 0xa0
  const BPF_JLE: byte := 0xb0
  const BPF_JSLT: byte := 0xc0
  const BPF_JSLE: byte := 0xd0

  // ---------------------------------------------------------------- the table

  /** The bit of an operation code that selects the second operand. */
  function SourceBit(source: Source): byte {
    if source == Reg then BPF_X else BPF_K
  }

  function AluClass(w: Width): byte {
    if w == W32 then BPF_ALU32_LOAD else BPF_ALU64_STORE
  }

  /** Products of 64 bits are told from those of 32 bits by the bit that also stands for the size of a byte. */
  function PqrClass(w: Width): byte {
    if w == W32 then BPF_PQR else BPF_PQR + BPF_B
  }

  function JumpClass(w: Width): byte {
    if w == W32 then BPF_JMP32 else BPF_JMP64
  }

  predicate SinceV3(v: Version) {
    v == V3 || v == V4 || v == Reserved
  }

  /** An operation code falls apart into its class, the bit for the source and the operation. */
  lemma Splits(v: Version, kind: nat, source: Source, operation: nat)
    requires kind < 8 && operation < 16 && source != LowImm
    ensures var opc := kind + SourceBit(source) + 16 * operation;
      && (kind == 4 ==> Decode(v, opc) == Decode32(v, operation, source))
      && (kind == 5 ==> Decode(v, opc) == Decode5(operation, source))
      && (kind == 6 && v == V2 ==> Decode(v, opc) == DecodePqr(operation, source))
      && (kind == 6 && SinceV3(v) ==> Decode(v, opc) == DecodeJump(operation, W32, source))
      && (kind == 7 ==> Decode(v, opc) == Decode64(v, operation, source))
  {
    hide Decode32, Decode5, DecodePqr, DecodeJump, Decode64;
    var opc := kind + SourceBit(source) + 16 * operation;
    assert opc / 16 == operation && opc % 8 == kind && SourceOf(opc) == source;
  }

  /** The arithmetic that all versions share; only the second one turns a subtraction of an immediate around. */
  lemma ArithmeticCodes(v: Version, w: Width, source: Source)
    requires source != LowImm
    ensures var code := AluClass(w) + SourceBit(source);
      && Decode(v, code + BPF_ADD) == Arith(Add, w, source)
      && Decode(v, code + BPF_SUB) == Arith(if source == Imm && v == V2 then SubFrom else Sub, w, source)
  {
    hide Decode;
    Splits(v, AluClass(w), source, 0);
    Splits(v, AluClass(w), source, 1);
  }

  /** The second version sign extends a 32-bit move between registers. */
  lemma MoveCodes(v: Version, w: Width, source: Source)
    requires source != LowImm
    ensures Decode(v, AluClass(w) + SourceBit(source) + BPF_MOV)
      == Arith(if w == W32 && source == Reg && v == V2 then MoveSigned else Move, w, source)
  {
    hide Decode;
    Splits(v, AluClass(w), source, 11);
  }

  lemma BitwiseCodes(v: Version, w: Width, source: Source)
    requires source != LowImm
    ensures var code := AluClass(w) + SourceBit(source);
      && Decode(v, code + BPF_OR) == Arith(Or, w, source)
      && Decode(v, code + BPF_AND) == Arith(And, w, source)
      && Decode(v, code + BPF_XOR) == Arith(Xor, w, source)
  {
    hide Decode;
    Splits(v, AluClass(w), source, 4);
    Splits(v, AluClass(w), source, 5);
    Splits(v, AluClass(w), source, 10);
  }

  lemma ShiftCodes(v: Version, w: Width, source: Source)
    requires source != LowImm
    ensures var code := AluClass(w) + SourceBit(source);
      && Decode(v, code + BPF_LSH) == Shifted(Lsh, w, source)
      && Decode(v, code + BPF_RSH) == Shifted(Rsh, w, source)
      && Decode(v, code + BPF_ARSH) == Shifted(Arsh, w, source)
  {
    hide Decode;
    Splits(v, AluClass(w), source, 6);
    Splits(v, AluClass(w), source, 7);
    Splits(v, AluClass(w), source, 12);
  }

  /** Multiplication, division and negation before and after the second version. */
  lemma OlderCodes(v: Version, w: Width, source: Source)
    requires source != LowImm && v != V2
    ensures var code := AluClass(w) + SourceBit(source);
      && Decode(v, code + BPF_MUL) == (if w == W32 then Arith(Mul, W32, source) else Product(Lmul, W64, source))
      && Decode(v, code + BPF_DIV) == Product(Udiv, w, source)
      && Decode(v, code + BPF_MOD) == Product(Urem, w, source)
      && Decode(v, AluClass(w) + BPF_NEG) == Arith(Neg, w, Imm)
  {
    hide Decode;
    Splits(v, AluClass(w), source, 2);
    Splits(v, AluClass(w), source, 3);
    Splits(v, AluClass(w), source, 9);
    Splits(v, AluClass(w), Imm, 8);
  }

  lemma ByteOrderCodes(v: Version)
    ensures Decode(v, BPF_ALU32_LOAD + BPF_X + BPF_END) == Endian(true)
    ensures v != V2 ==> Decode(v, BPF_ALU32_LOAD + BPF_K + BPF_END) == Endian(false)
    ensures v == V2 ==> Decode(v, BPF_ALU64_STORE + BPF_K + BPF_HOR) == Arith(HighOr, W64, Imm)
    ensures v != V2 ==> Decode(v, BPF_LD + BPF_IMM + BPF_DW) == Lddw
  {
    hide Decode32, Decode64;
    Splits(v, BPF_ALU32_LOAD, Reg, 13);
    Splits(v, BPF_ALU32_LOAD, Imm, 13);
    Splits(v, BPF_ALU64_STORE, Imm, 15);
    Swaps(v);
  }

  lemma Swaps(v: Version)
    ensures Decode32(v, 13, Reg) == Endian(true) && (v != V2 ==> Decode32(v, 13, Imm) == Endian(false))
    ensures v == V2 ==> Decode64(v, 15, Imm) == Arith(HighOr, W64, Imm)
  {
  }

  /** The products of the second version; the unsigned high product does not sign extend its immediate. */
  lemma ProductCodes(w: Width, source: Source)
    requires source != LowImm
    ensures var code := PqrClass(w) + SourceBit(source);
      && Decode(V2, code + BPF_LMUL) == Product(Lmul, w, source)
      && (w == W64 ==> Decode(V2, code + BPF_UHMUL) == Product(Uhmul, W64, if source == Imm then LowImm else Reg))
      && (w == W64 ==> Decode(V2, code + BPF_SHMUL) == Product(Shmul, W64, source))
  {
    hide Decode;
    Splits(V2, BPF_PQR, source, if w == W32 then 8 else 9);
    Splits(V2, BPF_PQR, source, 3);
    Splits(V2, BPF_PQR, source, 11);
  }

  /** The divisions of the second version; the unsigned ones of 64 bits do not sign extend their immediate. */
  lemma DivisionCodes(w: Width, source: Source)
    requires source != LowImm
    ensures var code := PqrClass(w) + SourceBit(source);
      var low := if source == Imm && w == W64 then LowImm else source;
      && Decode(V2, code + BPF_UDIV) == Product(Udiv, w, low)
      && Decode(V2, code + BPF_UREM) == Product(Urem, w, low)
      && Decode(V2, code + BPF_SDIV) == Product(Sdiv, w, source)
      && Decode(V2, code + BPF_SREM) == Product(Srem, w, source)
  {
    hide Decode;
    Splits(V2, BPF_PQR, source, if w == W32 then 4 else 5);
    Splits(V2, BPF_PQR, source, if w == W32 then 6 else 7);
    Splits(V2, BPF_PQR, source, if w == W32 then 12 else 13);
    Splits(V2, BPF_PQR, source, if w == W32 then 14 else 15);
  }

  /** The memory instructions of the old classes. */
  lemma MemoryCodes(v: Version, source: Source)
    requires source != LowImm && v != V2
    ensures Decode(v, BPF_LDX + BPF_MEM + BPF_B) == Load(1)
    ensures Decode(v, BPF_LDX + BPF_MEM + BPF_H) == Load(2)
    ensures Decode(v, BPF_LDX + BPF_MEM + BPF_W) == Load(4)
    ensures Decode(v, BPF_LDX + BPF_MEM + BPF_DW) == Load(8)
    ensures var code := (if source == Reg then BPF_STX else BPF_ST) + BPF_MEM;
      && Decode(v, code + BPF_B) == Store(1, source)
      && Decode(v, code + BPF_H) == Store(2, source)
      && Decode(v, code + BPF_W) == Store(4, source)
      && Decode(v, code + BPF_DW) == Store(8, source)
  {
    hide Decode32, Decode5, DecodePqr, DecodeJump, Decode64;
  }

  /** The memory instructions that share their classes with the arithmetic. */
  lemma MovedMemoryCodes(source: Source)
    requires source != LowImm
    ensures var code := BPF_ALU32_LOAD + BPF_X;
      && Decode(V2, code + BPF_1B) == Load(1)
      && Decode(V2, code + BPF_2B) == Load(2)
      && Decode(V2, code + BPF_4B) == Load(4)
      && Decode(V2, code + BPF_8B) == Load(8)
    ensures var code := BPF_ALU64_STORE + SourceBit(source);
      && Decode(V2, code + BPF_1B) == Store(1, source)
      && Decode(V2, code + BPF_2B) == Store(2, source)
      && Decode(V2, code + BPF_4B) == Store(4, source)
      && Decode(V2, code + BPF_8B) == Store(8, source)
  {
    hide Decode;
    Splits(V2, BPF_ALU32_LOAD, Reg, 2);
    Splits(V2, BPF_ALU32_LOAD, Reg, 3);
    Splits(V2, BPF_ALU32_LOAD, Reg, 8);
    Splits(V2, BPF_ALU32_LOAD, Reg, 9);
    Splits(V2, BPF_ALU64_STORE, source, 2);
    Splits(V2, BPF_ALU64_STORE, source, 3);
    Splits(V2, BPF_ALU64_STORE, source, 8);
    Splits(V2, BPF_ALU64_STORE, source, 9);
  }

  /** A comparison of either width; those of 32 bits exist since the third version. */
  lemma Compares(v: Version, w: Width, source: Source, operation: nat)
    requires source != LowImm && (w == W32 ==> SinceV3(v)) && operation < 16 && operation !in {0, 8, 9}
    ensures Decode(v, JumpClass(w) + SourceBit(source) + 16 * operation) == DecodeJump(operation, w, source)
  {
    hide Decode, DecodeJump;
    Splits(v, JumpClass(w), source, operation);
  }

  lemma JumpCodes(v: Version, w: Width, source: Source)
    requires source != LowImm && (w == W32 ==> SinceV3(v))
    ensures var code := JumpClass(w) + SourceBit(source);
      && Decode(v, code + BPF_JEQ) == Jump(Eq, w, source)
      && Decode(v, code + BPF_JNE) == Jump(Ne, w, source)
      && Decode(v, code + BPF_JGT) == Jump(Gt, w, source)
      && Decode(v, code + BPF_JGE) == Jump(Ge, w, source)
      && Decode(v, code + BPF_JLT) == Jump(Lt, w, source)
      && Decode(v, code + BPF_JLE) == Jump(Le, w, source)
      && Decode(v, code + BPF_JSET) == Jump(Set, w, source)
      && Decode(v, code + BPF_JSGT) == Jump(Sgt, w, source)
      && Decode(v, code + BPF_JSGE) == Jump(Sge, w, source)
      && Decode(v, code + BPF_JSLT) == Jump(Slt, w, source)
      && Decode(v, code + BPF_JSLE) == Jump(Sle, w, source)
  {
    hide Decode;
    Compares(v, w, source, 1);
    Compares(v, w, source, 5);
    Compares(v, w, source, 2);
    Compares(v, w, source, 3);
    Compares(v, w, source, 10);
    Compares(v, w, source, 11);
    Compares(v, w, source, 4);
    Compares(v, w, source, 6);
    Compares(v, w, source, 7);
    Compares(v, w, source, 12);
    Compares(v, w, source, 13);
  }

  lemma ControlCodes(v: Version)
    ensures Decode(v, BPF_JMP64 + BPF_JA) == Jump(Always, W64, Imm)
    ensures Decode(v, BPF_JMP64 + BPF_CALL) == CallImm
    ensures Decode(v, BPF_JMP64 + BPF_X + BPF_CALL) == CallReg
    ensures Decode(v, BPF_JMP64 + BPF_EXIT) == Exit
  {
    hide Decode;
    Splits(v, BPF_JMP64, Imm, 0);
    Splits(v, BPF_JMP64, Imm, 8);
    Splits(v, BPF_JMP64, Reg, 8);
    Splits(v, BPF_JMP64, Imm, 9);
  }

  // ---------------------------------------------------------------- nothing else is an operation

  /** One of the operations with an immediate or a register as its second operand. */
  ghost predicate WithEither(opc: int, code: int, operations: set<int>) {
    opc - code - BPF_K in operations || opc - code - BPF_X in operations
  }

  ghost function Comparisons(): set<int> {
    {BPF_JEQ, BPF_JGT, BPF_JGE, BPF_JLT, BPF_JLE, BPF_JSET, BPF_JNE, BPF_JSGT, BPF_JSGE, BPF_JSLT, BPF_JSLE}
  }

  ghost predicate NamedArithmetic(v: Version, w: Width, opc: int) {
    || WithEither(opc, AluClass(w), {BPF_ADD, BPF_SUB, BPF_OR, BPF_AND, BPF_XOR, BPF_LSH, BPF_RSH, BPF_ARSH, BPF_MOV})
    || (v != V2 && WithEither(opc, AluClass(w), {BPF_MUL, BPF_DIV, BPF_MOD}))
    || (v != V2 && opc == AluClass(w) + BPF_NEG)
  }

  ghost predicate Named32(v: Version, opc: int) {
    || NamedArithmetic(v, W32, opc)
    || (v == V2 && opc - BPF_ALU32_LOAD - BPF_X in {BPF_1B, BPF_2B, BPF_4B, BPF_8B})
    || opc == BPF_ALU32_LOAD + BPF_X + BPF_END
    || (v != V2 && opc == BPF_ALU32_LOAD + BPF_K + BPF_END)
  }

  ghost predicate Named64(v: Version, opc: int) {
    || NamedArithmetic(v, W64, opc)
    || (v == V2 && WithEither(opc, BPF_ALU64_STORE, {BPF_1B, BPF_2B, BPF_4B, BPF_8B}))
    || (v == V2 && opc == BPF_ALU64_STORE + BPF_K + BPF_HOR)
  }

  ghost predicate NamedMemory(v: Version, opc: int) {
    && v != V2
    && (|| opc - BPF_MEM - BPF_LDX in {BPF_B, BPF_H, BPF_W, BPF_DW}
        || opc - BPF_MEM - BPF_ST in {BPF_B, BPF_H, BPF_W, BPF_DW}
        || opc - BPF_MEM - BPF_STX in {BPF_B, BPF_H, BPF_W, BPF_DW}
        || opc == BPF_LD + BPF_IMM + BPF_DW)
  }

  ghost predicate NamedJump(opc: int) {
    || WithEither(opc, BPF_JMP64, Comparisons())
    || opc in {BPF_JMP64 + BPF_JA, BPF_JMP64 + BPF_CALL, BPF_JMP64 + BPF_X + BPF_CALL, BPF_JMP64 + BPF_EXIT}
  }

  /** The class that the second version uses for products, and the third one for comparisons of 32 bits. */
  ghost predicate NamedShared(v: Version, opc: int) {
    if v == V2 then
      || WithEither(opc, BPF_PQR, {BPF_UDIV, BPF_UREM, BPF_LMUL, BPF_SDIV, BPF_SREM})
      || WithEither(opc, BPF_PQR + BPF_B,
                    {BPF_UDIV, BPF_UREM, BPF_LMUL, BPF_SDIV, BPF_SREM, BPF_UHMUL, BPF_SHMUL})
    else SinceV3(v) && WithEither(opc, BPF_JMP32, Comparisons())
  }

  /** The code of an operation in a class determines the class. */
  lemma Parts(opc: byte)
    ensures opc == opc % 8 + SourceBit(SourceOf(opc)) + 16 * (opc / 16) && opc / 16 < 16
  {
  }

  lemma Only32(v: Version, source: Source, operation: nat)
    requires operation < 16 && source != LowImm
    ensures Decode32(v, operation, source) != Unknown
      <==> Named32(v, BPF_ALU32_LOAD + SourceBit(source) + 16 * operation)
  {
  }

  lemma Only64(v: Version, source: Source, operation: nat)
    requires operation < 16 && source != LowImm
    ensures Decode64(v, operation, source) != Unknown
      <==> Named64(v, BPF_ALU64_STORE + SourceBit(source) + 16 * operation)
  {
  }

  lemma OnlyJumps(source: Source, operation: nat)
    requires operation < 16 && source != LowImm
    ensures Decode5(operation, source) != Unknown <==> NamedJump(BPF_JMP64 + SourceBit(source) + 16 * operation)
  {
  }

  lemma OnlyProducts(source: Source, operation: nat)
    requires operation < 16 && source != LowImm
    ensures DecodePqr(operation, source) != Unknown
      <==> NamedShared(V2, BPF_PQR + SourceBit(source) + 16 * operation)
  {
  }

  lemma OnlyComparisons(w: Width, source: Source, operation: nat)
    requires operation < 16 && source != LowImm
    ensures DecodeJump(operation, w, source) != Unknown
      <==> WithEither(JumpClass(w) + SourceBit(source) + 16 * operation, JumpClass(w), Comparisons())
  {
  }

  lemma OnlyShared(v: Version, source: Source, operation: nat)
    requires operation < 16 && source != LowImm
    ensures var opc := BPF_PQR + SourceBit(source) + 16 * operation;
      Decode(v, opc) != Unknown <==> NamedShared(v, opc)
  {
    hide Decode, DecodePqr, DecodeJump, WithEither, Comparisons;
    var opc := BPF_PQR + SourceBit(source) + 16 * operation;
    if v == V2 {
      Splits(v, BPF_PQR, source, operation);
      OnlyProducts(source, operation);
    } else if SinceV3(v) {
      Splits(v, BPF_JMP32, source, operation);
      OnlyComparisons(W32, source, operation);
    } else {
      UnusedClass(v, opc);
    }
  }

  lemma UnusedClass(v: Version, opc: byte)
    requires (v == V0 || v == V1) && opc % 8 == BPF_PQR
    ensures Decode(v, opc) == Unknown
  {
    hide Decode32, Decode5, DecodePqr, DecodeJump, Decode64;
  }

  lemma OnlyMemory(v: Version, opc: byte)
    requires opc % 8 < 4
    ensures Decode(v, opc) != Unknown <==> NamedMemory(v, opc)
  {
    hide Decode32, Decode5, DecodePqr, DecodeJump, Decode64;
  }

  lemma ClassOfEither(opc: int, code: int, operations: set<int>)
    requires forall o :: o in operations ==> o % 16 == 0
    ensures WithEither(opc, code, operations) ==> opc % 8 == code % 8
  {
  }

  lemma ClassOfArithmetic(v: Version, w: Width, opc: int)
    ensures NamedArithmetic(v, w, opc) ==> opc % 8 == AluClass(w)
  {
    hide WithEither;
    ClassOfEither(opc, AluClass(w), {BPF_ADD, BPF_SUB, BPF_OR, BPF_AND, BPF_XOR, BPF_LSH, BPF_RSH, BPF_ARSH, BPF_MOV});
    ClassOfEither(opc, AluClass(w), {BPF_MUL, BPF_DIV, BPF_MOD});
  }

  lemma ClassOfShared(v: Version, opc: int)
    ensures NamedShared(v, opc) ==> opc % 8 == BPF_PQR
  {
    hide WithEither;
    ClassOfEither(opc, BPF_PQR, {BPF_UDIV, BPF_UREM, BPF_LMUL, BPF_SDIV, BPF_SREM});
    ClassOfEither(opc, BPF_PQR + BPF_B, {BPF_UDIV, BPF_UREM, BPF_LMUL, BPF_SDIV, BPF_SREM, BPF_UHMUL, BPF_SHMUL});
    ClassOfEither(opc, BPF_JMP32, Comparisons());
  }

  /** The named codes of different classes are different. */
  lemma NamesAreApart(v: Version, opc: byte)
    ensures Named32(v, opc) ==> opc % 8 == BPF_ALU32_LOAD
    ensures Named64(v, opc) ==> opc % 8 == BPF_ALU64_STORE
    ensures NamedMemory(v, opc) ==> opc % 8 < 4
    ensures NamedJump(opc) ==> opc % 8 == BPF_JMP64
    ensures NamedShared(v, opc) ==> opc % 8 == BPF_PQR
  {
    hide WithEither, NamedArithmetic, NamedShared, Comparisons;
    ClassOfArithmetic(v, W32, opc);
    ClassOfArithmetic(v, W64, opc);
    ClassOfShared(v, opc);
    ClassOfEither(opc, BPF_ALU64_STORE, {BPF_1B, BPF_2B, BPF_4B, BPF_8B});
    AllComparisons();
    ClassOfEither(opc, BPF_JMP64, Comparisons());
  }

  lemma AllComparisons()
    ensures forall o :: o in Comparisons() ==> o % 16 == 0
  {
  }

  /** Exactly the named codes of a version are operations in it. */
  lemma OnlyNamedCodes(v: Version, opc: byte)
    ensures Decode(v, opc) != Unknown
      <==> Named32(v, opc) || Named64(v, opc) || NamedMemory(v, opc) || NamedJump(opc) || NamedShared(v, opc)
  {
    hide Decode, Named32, Named64, NamedMemory, NamedJump, NamedShared, SourceBit, Decode32, Decode64, Decode5;
    var source, operation := SourceOf(opc), opc / 16;
    Parts(opc);
    NamesAreApart(v, opc);
    if opc % 8 < 4 {
      OnlyMemory(v, opc);
    } else {
      Splits(v, opc % 8, source, operation);
      Only32(v, source, operation);
      Only64(v, source, operation);
      OnlyJumps(source, operation);
      OnlyShared(v, source, operation);
    }
  }
}
