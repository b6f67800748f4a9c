/**
 Every instruction that only computes: its compiled code gives the interpreter's result or the
 interpreter's error.
 */
module Computations {
  import opened Options
  import opened Words
  import opened Arithmetic
  import opened Instructions
  import opened Verifier
  import opened Interpreter
  import opened HostCode
  import opened Sequences
  import opened Products
  import Meaning

  // ---------------------------------------------------------------- emitting

  /** Results of 32 bits are sign extended unless the version asks for explicit extension. */
  function ExtendResult(v: Version, w: Width, dst: nat): seq<X86> {
    if w == W32 && !ExplicitSignExtension(v) then [SignExtend(dst, dst)] else []
  }

  function LoadConstant(dst: nat, value: int, key: int, sanitize: bool): seq<X86> {
    if sanitize then SanitizedLoad(dst, value, key) else [LoadImmediate(dst, value)]
  }

  /** An operation with a register or with a constant. */
  function Apply(op: AluOp, w: Width, source: Source, src: nat, dst: nat, imm: int, key: int,
                 sanitize: bool): seq<X86> {
    if source == Reg then [AluReg(op, w, src, dst)] else SanitizedAlu(op, w, dst, imm, key, sanitize)
  }

  function EmitArith(v: Version, op: AluOp, w: Width, source: Source, src: nat, dst: nat, imm: int, key: int,
                     sanitize: bool): seq<X86> {
    match op
    case Add => Apply(Add, w, source, src, dst, imm, key, sanitize) + ExtendResult(v, w, dst)
    case Sub => Apply(Sub, w, source, src, dst, imm, key, sanitize) + ExtendResult(v, w, dst)
    case SubFrom =>
      [Negate(w, dst)] + (if imm != 0 then SanitizedAlu(Add, w, dst, imm, key, sanitize) else [])
        + ExtendResult(v, w, dst)
    case Mul =>
      if source == Reg then [Multiply(w, src, dst)] + ExtendResult(v, w, dst)
      else LoadConstant(SCRATCH, imm, key, sanitize) + [Multiply(w, SCRATCH, dst)] + ExtendResult(v, w, dst)
    case Or => Apply(Or, w, source, src, dst, imm, key, sanitize)
    case And => Apply(And, w, source, src, dst, imm, key, sanitize)
    case Xor => Apply(Xor, w, source, src, dst, imm, key, sanitize)
    case Neg => [Negate(w, dst)]
    case Move =>
      if source == Reg then [Mov(w, src, dst)]
        else LoadConstant(dst, if w == W32 then Trunc(W32, imm) else imm, key, sanitize)
    case MoveSigned => [SignExtend(src, dst)]
    case HighOr => SanitizedAlu(Or, W64, dst, Signed(W64, imm * 0x1_0000_0000), key, sanitize)
  }

  function EmitEndian(big: bool, imm: int, dst: nat): seq<X86> {
    if imm == 16 then (if big then [SwapLow(dst)] else []) + [AluImm(And, W32, dst, 0xFFFF)]
    else if imm == 32 then (if big then [ByteSwap(W32, dst)] else [AluImm(And, W32, dst, -1)])
    else if big then [ByteSwap(W64, dst)] else []
  }

  /** The multiplication of versions without the new arithmetic. */
  function EmitMultiply(source: Source, src: nat, dst: nat, imm: int, key: int, sanitize: bool): seq<X86> {
    if source == Reg then [Multiply(W64, src, dst)]
      else LoadConstant(SCRATCH, imm, key, sanitize) + [Multiply(W64, SCRATCH, dst)]
  }

  function Emit(v: Version, op: Op, src: nat, dst: nat, imm: int, key: int, sanitize: bool, pc: nat): seq<X86>
    requires IsCompute(op)
  {
    match op
    case Arith(alu, w, source) => EmitArith(v, alu, w, source, src, dst, imm, key, sanitize)
    case Shifted(shift, w, source) => EmitShift(shift, w, src, dst, if source == Reg then None else Some(imm))
    case Endian(big) => EmitEndian(big, imm, dst)
    case Product(pqr, w, source) =>
      var constant := if source == Reg then None else Some(JitImmediate(v, pqr, imm));
      if CompiledIn(v, pqr, w) then EmitProduct(v, pqr, w, src, dst, constant, key, sanitize, pc)
      else EmitMultiply(source, src, dst, imm, key, sanitize)
  }

  // ---------------------------------------------------------------- running

  /** Code behind code that delivers a value in the same register. */
  lemma DeliversThen(a: seq<X86>, b: seq<X86>, h: Host, dst: nat, x: u64, y: u64)
    requires Wide(h) && dst < 16 && Delivers(Exec(a, h), h, dst, x)
    requires Delivers(Exec(b, Exec(a, h).h), Exec(a, h).h, dst, y)
    ensures Delivers(Exec(a + b, h), h, dst, y)
  {
    hide Exec;
    ExecAppend(a, b, h);
  }

  lemma ExtendDelivers(v: Version, w: Width, dst: nat, h: Host)
    requires Wide(h) && Guest(dst)
    ensures Delivers(Exec(ExtendResult(v, w, dst), h), h, dst,
                     if w == W32 && !ExplicitSignExtension(v) then SignExtend32(h.reg[dst]) else h.reg[dst])
  {
    hide Exec, SignExtend32;
    if w == W32 && !ExplicitSignExtension(v) {
      Exec1(SignExtend(dst, dst), h);
    } else {
      ExecNothing(h);
    }
  }

  lemma ApplyDelivers(op: AluOp, w: Width, source: Source, src: nat, dst: nat, imm: int, key: int, sanitize: bool,
                      h: Host)
    requires Wide(h) && Guest(dst) && Guest(src)
    ensures Delivers(Exec(Apply(op, w, source, src, dst, imm, key, sanitize), h), h, dst,
                     Alu(op, w, true, h.reg[dst], if source == Reg then h.reg[src] else Trunc(W64, imm)))
  {
    hide Exec, Alu, Trunc, SanitizedAlu;
    if source == Reg {
      Exec1(AluReg(op, w, src, dst), h);
    } else {
      SanitizedAluComputes(op, w, dst, imm, key, sanitize, h);
    }
  }

  lemma ConstantDelivers(dst: nat, value: int, key: int, sanitize: bool, h: Host)
    requires Wide(h) && dst < 16
    ensures Delivers(Exec(LoadConstant(dst, value, key, sanitize), h), h, dst, Trunc(W64, value))
  {
    hide Exec, Trunc, SanitizedLoad;
    if sanitize {
      SanitizedLoadLoads(dst, value, key, h);
    } else {
      Exec1(LoadImmediate(dst, value), h);
    }
  }

  /** A multiplication with a register or with a constant in the scratch register. */
  lemma MultiplyDelivers(w: Width, source: Source, src: nat, dst: nat, imm: int, key: int, sanitize: bool, h: Host)
    requires Wide(h) && Guest(dst) && Guest(src)
    ensures var b := if source == Reg then h.reg[src] else Trunc(W64, imm);
      Delivers(Exec(if source == Reg then [Multiply(w, src, dst)]
        else LoadConstant(SCRATCH, imm, key, sanitize) + [Multiply(w, SCRATCH, dst)], h),
               h, dst, Trunc(w, h.reg[dst] * b))
  {
    hide Exec, Trunc, Signed, LoadConstant;
    if source == Reg {
      Exec1(Multiply(w, src, dst), h);
      SignedProduct(w, h.reg[dst], h.reg[src]);
    } else {
      ConstantDelivers(SCRATCH, imm, key, sanitize, h);
      ExecSnoc(LoadConstant(SCRATCH, imm, key, sanitize), Multiply(w, SCRATCH, dst), h);
      SignedProduct(w, h.reg[dst], Trunc(W64, imm));
    }
  }

  lemma NegateDelivers(w: Width, dst: nat, h: Host)
    requires Wide(h) && Guest(dst)
    ensures Delivers(Exec([Negate(w, dst)], h), h, dst, Opposite(w, h.reg[dst]))
  {
    hide Exec, Opposite, Delivers;
    assert One(Negate(w, dst), h) == On(NoFlag(Put(h, dst, Opposite(w, h.reg[dst]))));
    SetsOnly(Negate(w, dst), h, dst, Opposite(w, h.reg[dst]));
  }

  /** An instruction that only sets its destination. */
  lemma SetsOnly(i: X86, h: Host, dst: nat, x: u64)
    requires Wide(h) && dst < 16 && (One(i, h) == On(Put(h, dst, x)) || One(i, h) == On(NoFlag(Put(h, dst, x))))
    ensures Delivers(Exec([i], h), h, dst, x)
  {
    hide One, Exec;
    Exec1(i, h);
  }

  /** Extending a truncated result gives the interpreter's extended one. */
  lemma ExtendedResult(v: Version, w: Width, x: int)
    ensures (if w == W32 && !ExplicitSignExtension(v) then SignExtend32(Trunc(w, x)) else Trunc(w, x)) ==
      Extend(w, ExplicitSignExtension(v), x)
  {
    hide Trunc, Signed;
    TruncTwice(W32, x);
  }

  /** A result that is computed and then extended. */
  lemma ExtendedDelivers(v: Version, w: Width, dst: nat, code: seq<X86>, x: int, h: Host)
    requires Wide(h) && Guest(dst) && Delivers(Exec(code, h), h, dst, Trunc(w, x))
    ensures Delivers(Exec(code + ExtendResult(v, w, dst), h), h, dst, Extend(w, ExplicitSignExtension(v), x))
  {
    hide Exec, Trunc, SignExtend32, ExtendResult, Extend;
    var t := Exec(code, h).h;
    ExtendDelivers(v, w, dst, t);
    ExtendedResult(v, w, x);
    DeliversThen(code, ExtendResult(v, w, dst), h, dst, Trunc(w, x), Extend(w, ExplicitSignExtension(v), x));
  }

  /** Negating and adding is subtracting from. */
  lemma SubtractsFrom(w: Width, dst: nat, imm: int, key: int, sanitize: bool, h: Host)
    requires Wide(h) && Guest(dst)
    ensures var added := if imm != 0 then SanitizedAlu(Add, w, dst, imm, key, sanitize) else [];
      Delivers(Exec([Negate(w, dst)] + added, h), h, dst, Alu(SubFrom, w, true, h.reg[dst], Trunc(W64, imm)))
  {
    hide Exec, Trunc, SanitizedAlu, Alu, Opposite;
    NegateDelivers(w, dst, h);
    var t := Exec([Negate(w, dst)], h).h;
    FromOpposite(w, h.reg[dst], Trunc(W64, imm));
    if imm != 0 {
      SanitizedAluComputes(Add, w, dst, imm, key, sanitize, t);
      DeliversThen([Negate(w, dst)], SanitizedAlu(Add, w, dst, imm, key, sanitize), h, dst, Opposite(w, h.reg[dst]),
                   Alu(SubFrom, w, true, h.reg[dst], Trunc(W64, imm)));
    } else {
      TruncOfZero(W64);
      assert [Negate(w, dst)] + [] == [Negate(w, dst)];
    }
  }

  lemma FromOpposite(w: Width, a: u64, b: u64)
    ensures Alu(Add, w, true, Opposite(w, a), b) == Alu(SubFrom, w, true, a, b)
    ensures b == 0 ==> Opposite(w, a) == Alu(SubFrom, w, true, a, b)
  {
    hide Trunc;
    SumTruncates(w, -(a as int), b);
  }

  lemma SumTruncates(w: Width, x: int, y: int)
    ensures Trunc(w, Trunc(w, x) + y) == Trunc(w, x + y)
  {
    var m: int := Modulus(w);
    var q := x / m;
    assert Trunc(w, x) + y == (x + y) + (-q) * m;
    ModAdds(x + y, -q, m);
  }

  // ---------------------------------------------------------------- arithmetic and logic

  /** What the interpreter computes for an operation. */
  function Second(source: Source, imm: int, h: Host, src: nat): u64
    requires src < |h.reg|
  {
    Operand(source, imm, h.reg[src])
  }

  /** The operations as the versions have them. */
  ghost predicate Used(v: Version, op: AluOp, w: Width, source: Source) {
    && source != LowImm && (op == SubFrom || op == Neg || op == HighOr ==> source == Imm)
    && (op == MoveSigned ==> source == Reg) && (op == Move && source == Reg && w == W32 ==> !ExplicitSignExtension(v))
    && (op == HighOr ==> w == W64) && (op == SubFrom ==> ExplicitSignExtension(v) || w == W64)
  }

  lemma Used32(v: Version, code: nat, source: Source)
    requires Decode32(v, code, source).Arith? && source != LowImm
    ensures var p := Decode32(v, code, source); Used(v, p.alu, p.w, p.source)
  {
  }

  lemma Used64(v: Version, code: nat, source: Source)
    requires Decode64(v, code, source).Arith? && source != LowImm
    ensures var p := Decode64(v, code, source); Used(v, p.alu, p.w, p.source)
  {
  }

  lemma UsedByVersion(v: Version, opc: byte)
    requires Decode(v, opc).Arith?
    ensures var p := Decode(v, opc); Used(v, p.alu, p.w, p.source)
  {
    hide Decode32, Decode64, Used;
    if opc % 8 == 4 {
      Used32(v, opc / 16, SourceOf(opc));
    } else {
      Used64(v, opc / 16, SourceOf(opc));
    }
  }

  /** Sums and differences. */
  lemma SumIsEmitted(v: Version, op: AluOp, w: Width, source: Source, src: nat, dst: nat, imm: int, key: int,
                     sanitize: bool, h: Host)
    requires Wide(h) && Guest(src) && Guest(dst) && Used(v, op, w, source) && (op == Add || op == Sub)
    ensures Delivers(Exec(EmitArith(v, op, w, source, src, dst, imm, key, sanitize), h), h, dst,
                     Alu(op, w, ExplicitSignExtension(v), h.reg[dst], Second(source, imm, h, src)))
  {
    hide Exec, Trunc, Extend, ExtendResult, Apply, Delivers;
    var a: int, b: int := h.reg[dst], Second(source, imm, h, src);
    var x := if op == Add then a + b else a - b;
    ApplyDelivers(op, w, source, src, dst, imm, key, sanitize, h);
    PlainExtend(w, x);
    ExtendedDelivers(v, w, dst, Apply(op, w, source, src, dst, imm, key, sanitize), x, h);
  }

  lemma MulIsEmitted(v: Version, w: Width, source: Source, src: nat, dst: nat, imm: int, key: int, sanitize: bool,
                     h: Host)
    requires Wide(h) && Guest(src) && Guest(dst) && Used(v, Mul, w, source)
    ensures Delivers(Exec(EmitArith(v, Mul, w, source, src, dst, imm, key, sanitize), h), h, dst,
                     Alu(Mul, w, ExplicitSignExtension(v), h.reg[dst], Second(source, imm, h, src)))
  {
    hide Exec, Trunc, Extend, ExtendResult, LoadConstant, Delivers;
    var a: int, b: int := h.reg[dst], Second(source, imm, h, src);
    MultiplyDelivers(w, source, src, dst, imm, key, sanitize, h);
    var code := if source == Reg then [Multiply(w, src, dst)]
      else LoadConstant(SCRATCH, imm, key, sanitize) + [Multiply(w, SCRATCH, dst)];
    ExtendedDelivers(v, w, dst, code, a * b, h);
  }

  lemma PlainExtend(w: Width, x: int)
    ensures Extend(w, true, x) == Trunc(w, x)
  {
  }

  lemma SubFromIsEmitted(v: Version, w: Width, src: nat, dst: nat, imm: int, key: int, sanitize: bool, h: Host)
    requires Wide(h) && Guest(src) && Guest(dst) && Used(v, SubFrom, w, Imm)
    ensures Delivers(Exec(EmitArith(v, SubFrom, w, Imm, src, dst, imm, key, sanitize), h), h, dst,
                     Alu(SubFrom, w, ExplicitSignExtension(v), h.reg[dst], Trunc(W64, imm)))
  {
    hide Exec, Trunc, SanitizedAlu;
    SubtractsFrom(w, dst, imm, key, sanitize, h);
    var code := [Negate(w, dst)] + (if imm != 0 then SanitizedAlu(Add, w, dst, imm, key, sanitize) else []);
    assert code + ExtendResult(v, w, dst) == code;
  }

  /** Logic does not extend its result, and does not depend on how it would. */
  lemma LogicIsEmitted(v: Version, op: AluOp, w: Width, source: Source, src: nat, dst: nat, imm: int, key: int,
                       sanitize: bool, h: Host)
    requires Wide(h) && Guest(src) && Guest(dst) && Used(v, op, w, source)
    requires (op == Or || op == And || op == Xor || op == Neg)
    ensures Delivers(Exec(EmitArith(v, op, w, source, src, dst, imm, key, sanitize), h), h, dst,
                     Alu(op, w, ExplicitSignExtension(v), h.reg[dst], Second(source, imm, h, src)))
  {
    hide Exec, Trunc, Apply, BitOr, BitAnd, BitXor;
    if op == Neg {
      NegateDelivers(w, dst, h);
    } else {
      ApplyDelivers(op, w, source, src, dst, imm, key, sanitize, h);
    }
  }

  lemma MoveIsEmitted(v: Version, op: AluOp, w: Width, source: Source, src: nat, dst: nat, imm: int, key: int,
                      sanitize: bool, h: Host)
    requires Wide(h) && Guest(src) && Guest(dst) && Used(v, op, w, source) && (op == Move || op == MoveSigned)
    ensures Delivers(Exec(EmitArith(v, op, w, source, src, dst, imm, key, sanitize), h), h, dst,
                     Alu(op, w, ExplicitSignExtension(v), h.reg[dst], Second(source, imm, h, src)))
  {
    hide Exec, Trunc, LoadConstant, SignExtend32;
    if op == MoveSigned {
      Exec1(SignExtend(src, dst), h);
    } else if source == Reg {
      Exec1(Mov(w, src, dst), h);
    } else {
      ConstantDelivers(dst, if w == W32 then Trunc(W32, imm) else imm, key, sanitize, h);
      TruncOfTrunc(w, imm);
      TruncIsIdentity(Trunc(W32, imm));
      TruncTwice(W64, imm);
    }
  }

  lemma HighOrIsEmitted(v: Version, src: nat, dst: nat, imm: int, key: int, sanitize: bool, h: Host)
    requires Wide(h) && Guest(src) && Guest(dst)
    ensures Delivers(Exec(EmitArith(v, HighOr, W64, Imm, src, dst, imm, key, sanitize), h), h, dst,
                     Alu(HighOr, W64, ExplicitSignExtension(v), h.reg[dst], Trunc(W64, imm)))
  {
    hide Exec, Trunc, Signed, SanitizedAlu, BitOr;
    var x := imm * 0x1_0000_0000;
    SanitizedAluComputes(Or, W64, dst, Signed(W64, x), key, sanitize, h);
    SignedIsCongruent(W64, x);
    TruncOfProduct(W64, imm, 0x1_0000_0000);
    TruncIsIdentity(h.reg[dst]);
    TruncIsIdentity(Trunc(W64, x));
  }

  lemma ArithIsEmitted(v: Version, op: AluOp, w: Width, source: Source, src: nat, dst: nat, imm: int, key: int,
                       sanitize: bool, h: Host)
    requires Wide(h) && Guest(src) && Guest(dst) && Used(v, op, w, source)
    ensures Delivers(Exec(EmitArith(v, op, w, source, src, dst, imm, key, sanitize), h), h, dst,
                     Alu(op, w, ExplicitSignExtension(v), h.reg[dst], Second(source, imm, h, src)))
  {
    hide Exec, EmitArith, Alu, Delivers;
    match op
    case SubFrom => SubFromIsEmitted(v, w, src, dst, imm, key, sanitize, h);
    case HighOr => HighOrIsEmitted(v, src, dst, imm, key, sanitize, h);
    case Move => MoveIsEmitted(v, op, w, source, src, dst, imm, key, sanitize, h);
    case MoveSigned => MoveIsEmitted(v, op, w, source, src, dst, imm, key, sanitize, h);
    case Add => SumIsEmitted(v, op, w, source, src, dst, imm, key, sanitize, h);
    case Sub => SumIsEmitted(v, op, w, source, src, dst, imm, key, sanitize, h);
    case Mul => MulIsEmitted(v, w, source, src, dst, imm, key, sanitize, h);
    case _ => LogicIsEmitted(v, op, w, source, src, dst, imm, key, sanitize, h);
  }

  // ---------------------------------------------------------------- byte order

  lemma MaskLow(x: u64)
    ensures Alu(And, W32, true, x, 0xFFFF) == x % 0x1_0000
    ensures Alu(And, W32, true, x, Trunc(W64, -1)) == Trunc(W32, x)
  {
    hide BitAnd, Pow2;
    Pow2Is32();
    Pow2Is16();
    AndLow(Trunc(W32, x), 16);
    AndLow(Trunc(W32, x), 32);
    ModOfMod(x, 0x1_0000, 0x1_0000);
  }

  lemma Pow2Is16()
    ensures Pow2(16) == 0x1_0000
  {
    assert Pow2(8) == 256;
    Pow2Adds(8, 8);
  }

  lemma SwappedLow(x: u64)
    ensures SwapLowBytes(x) % 0x1_0000 == SwapBytes(x, 2) < 0x1_0000
  {
    hide Pow2;
    Pow2Zero();
    Pow2Is8();
    var a, b := x % 0x100, (x / 0x100) % 0x100;
    assert SwapBytes(x, 2) == a * 0x100 + b by {
      assert SwapBytes(x / 0x100, 1) == b * 1 + SwapBytes(x / 0x100 / 0x100, 0);
    }
    var q := x / 0x1_0000;
    assert SwapLowBytes(x) == q * 0x1_0000 + (a * 0x100 + b);
    DivModUnique(0x1_0000, q, a * 0x100 + b);
  }

  lemma Pow2Is8()
    ensures Pow2(8) == 0x100
  {
  }

  lemma EndianIsEmitted(big: bool, imm: int, dst: nat, h: Host)
    requires Wide(h) && Guest(dst) && (imm == 16 || imm == 32 || imm == 64)
    ensures Delivers(Exec(EmitEndian(big, imm, dst), h), h, dst, EndianResult(big, imm, h.reg[dst]).value)
  {
    hide Exec, SwapBytes, Alu, SwapLowBytes, Trunc, Delivers;
    var a := h.reg[dst];
    MaskLow(a);
    if imm == 16 {
      if big {
        SwapIsEmitted(dst, h);
      } else {
        MaskDelivers(dst, h);
        assert EmitEndian(big, imm, dst) == [AluImm(And, W32, dst, 0xFFFF)];
      }
    } else if imm == 32 {
      if big {
        SetsOnly(ByteSwap(W32, dst), h, dst, Trunc(W64, SwapBytes(a, 4)));
      } else {
        SetsOnly(AluImm(And, W32, dst, -1), h, dst, Trunc(W32, a));
      }
    } else if big {
      SetsOnly(ByteSwap(W64, dst), h, dst, Trunc(W64, SwapBytes(a, 8)));
    } else {
      StaysAsItIs(h, dst);
    }
  }

  lemma StaysAsItIs(h: Host, dst: nat)
    requires Wide(h) && dst < 16
    ensures Delivers(Exec([], h), h, dst, h.reg[dst])
  {
    hide Exec;
    ExecNothing(h);
  }

  lemma MaskDelivers(dst: nat, h: Host)
    requires Wide(h) && Guest(dst)
    ensures Delivers(Exec([AluImm(And, W32, dst, 0xFFFF)], h), h, dst, h.reg[dst] % 0x1_0000)
  {
    hide Exec, Alu, Trunc, Delivers;
    MaskLow(h.reg[dst]);
    TruncIsIdentity(0xFFFF);
    SetsOnly(AluImm(And, W32, dst, 0xFFFF), h, dst, h.reg[dst] % 0x1_0000);
  }

  lemma SwapIsEmitted(dst: nat, h: Host)
    requires Wide(h) && Guest(dst)
    ensures Delivers(Exec(EmitEndian(true, 16, dst), h), h, dst, Trunc(W64, SwapBytes(h.reg[dst], 2)))
  {
    hide Exec, SwapBytes, SwapLowBytes, Trunc;
    var a, b := [SwapLow(dst)], [AluImm(And, W32, dst, 0xFFFF)];
    SetsOnly(SwapLow(dst), h, dst, SwapLowBytes(h.reg[dst]));
    MaskDelivers(dst, Exec(a, h).h);
    SwappedLow(h.reg[dst]);
    TruncIsIdentity(SwapBytes(h.reg[dst], 2));
    DeliversThen(a, b, h, dst, SwapLowBytes(h.reg[dst]), SwapBytes(h.reg[dst], 2));
    assert EmitEndian(true, 16, dst) == a + b;
  }

  // ---------------------------------------------------------------- the main result

  lemma ShiftSource(v: Version, opc: byte)
    requires Decode(v, opc).Shifted?
    ensures Decode(v, opc).source != LowImm
  {
  }

  /** Products that are not compiled as such are the old 64-bit multiplication. */
  lemma OldProduct(v: Version, opc: byte)
    requires var p := Decode(v, opc); p.Product? && !CompiledIn(v, p.pqr, p.w)
    ensures var p := Decode(v, opc); p.pqr == Lmul && p.w == W64 && p.source != LowImm
  {
    hide Decode32, Decode64, DecodePqr, DecodeJump, CompiledIn;
    var code, source := opc / 16, SourceOf(opc);
    if opc % 8 == 4 {
      Products32(v, code, source);
    } else if opc % 8 == 7 {
      Products64(v, code, source);
    } else {
      ProductsNew(v, code, source);
    }
  }

  lemma Products32(v: Version, code: nat, source: Source)
    ensures var p := Decode32(v, code, source); p.Product? ==> CompiledIn(v, p.pqr, p.w)
  {
  }

  lemma Products64(v: Version, code: nat, source: Source)
    requires source != LowImm
    ensures var p := Decode64(v, code, source);
      p.Product? && !CompiledIn(v, p.pqr, p.w) ==> p.pqr == Lmul && p.w == W64 && p.source != LowImm
  {
  }

  lemma ProductsNew(v: Version, code: nat, source: Source)
    ensures var p := DecodePqr(code, source); p.Product? && EnablePqr(v) ==> CompiledIn(v, p.pqr, p.w)
    ensures !DecodeJump(code, W32, source).Product? && !Decode5(code, source).Product?
  {
  }

  /**
   For every version, every instruction that only computes and that the verifier lets pass, all register contents, keys
   and overlaps: the compiled code leaves the interpreter's result in the destination, or raises the interpreter's
   error, and keeps every other guest register and the stack.
   */
  lemma ComputationIsCompiled(v: Version, opc: byte, imm: int, src: nat, dst: nat, key: int, sanitize: bool, pc: nat,
                              h: Host)
    requires Wide(h) && Guest(src) && Guest(dst) && Fits32(imm) && IsCompute(Decode(v, opc))
    requires var p := Decode(v, opc);
      p.Product? && IsDivision(p.pqr) && p.source != Reg ==> Trunc(p.w, Operand(p.source, imm, 0)) != 0
    requires Decode(v, opc).Endian? ==> imm == 16 || imm == 32 || imm == 64
    ensures var p := Decode(v, opc);
      var e := Exec(Emit(v, p, src, dst, imm, key, sanitize, pc), h);
      match Compute(v, p, imm, h.reg[dst], Operand(SourceOfOp(p), imm, h.reg[src]))
      case Ok(value) => Delivers(e, h, dst, value)
      case Err(fault) => e.Raised? && e.fault == fault && Untouched(h, e.h, SCRATCH)
  {
    hide Decode, Exec, EmitArith, EmitShift, EmitEndian, EmitProduct, EmitMultiply, Alu, Shift, Pqr, Trunc, CompiledIn,
         Overflows, SwapBytes;
    var p := Decode(v, opc);
    match p
    case Arith(alu, w, source) =>
      UsedByVersion(v, opc);
      ArithIsEmitted(v, alu, w, source, src, dst, imm, key, sanitize, h);
    case Shifted(shift, w, source) =>
      ShiftSource(v, opc);
      ShiftIsEmitted(shift, w, src, dst, if source == Reg then None else Some(imm), h);
    case Endian(big) =>
      EndianIsEmitted(big, imm, dst, h);
    case Product(pqr, w, source) =>
      if CompiledIn(v, pqr, w) {
        CompiledProduct(v, opc, imm, src, dst, key, sanitize, pc, h);
      } else {
        OldProduct(v, opc);
        OldProductIsEmitted(source, src, dst, imm, key, sanitize, h);
      }
  }

  /** The compiled code delivers what the operation promises of its operands, or raises the error they call for. */
  lemma CompiledMeaning(v: Version, opc: byte, imm: int, src: nat, dst: nat, key: int, sanitize: bool, pc: nat, h: Host)
    returns (b: u64)
    requires Wide(h) && Guest(src) && Guest(dst) && Fits32(imm) && IsCompute(Decode(v, opc))
    requires var p := Decode(v, opc);
      p.Product? && IsDivision(p.pqr) && p.source != Reg ==> Trunc(p.w, Operand(p.source, imm, 0)) != 0
    requires Decode(v, opc).Endian? ==> imm == 16 || imm == 32 || imm == 64
    ensures var p := Decode(v, opc); var e := Exec(Emit(v, p, src, dst, imm, key, sanitize, pc), h);
      && (!p.Endian? ==> Meaning.IsOperand(p.source, imm, h.reg[src], b))
      && (if Meaning.DividesByZero(p, b) then e.Raised? && e.fault == DivideByZero
          else if Meaning.DivisionOverflows(p, h.reg[dst], b) then e.Raised? && e.fault == DivideOverflow
          else && e.On? && |e.h.reg| == 16 && Delivers(e, h, dst, e.h.reg[dst])
               && Meaning.ComputeMeans(v, p, imm, h.reg[dst], b, e.h.reg[dst]))
  {
    hide Decode, Exec, Emit, Compute, Operand, Trunc, Meaning.IsOperand, Meaning.ComputeMeans, Meaning.DividesByZero,
         Meaning.DivisionOverflows;
    var p := Decode(v, opc);
    ComputationIsCompiled(v, opc, imm, src, dst, key, sanitize, pc, h);
    b := Operand(SourceOfOp(p), imm, h.reg[src]);
    Meaning.OperandLaw(SourceOfOp(p), imm, h.reg[src]);
    Meaning.SameImmediate(p, imm, h.reg[src]);
    Meaning.HighOrIsWide(v, opc);
    Meaning.ComputeLaw(v, p, imm, h.reg[dst], b);
  }

  lemma OldProductIsEmitted(source: Source, src: nat, dst: nat, imm: int, key: int, sanitize: bool, h: Host)
    requires Wide(h) && Guest(src) && Guest(dst) && source != LowImm
    ensures ProductResult(Lmul, W64, source, h.reg[dst], Operand(source, imm, h.reg[src])).Ok?
    ensures Delivers(Exec(EmitMultiply(source, src, dst, imm, key, sanitize), h), h, dst,
                     ProductResult(Lmul, W64, source, h.reg[dst], Operand(source, imm, h.reg[src])).value)
  {
    hide Exec, Trunc, LoadConstant;
    MultiplyDelivers(W64, source, src, dst, imm, key, sanitize, h);
  }
}
