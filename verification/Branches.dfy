/**
 Compiled conditional branches: the processor's flags after the comparison make the branch exactly
 when the guest's condition holds.
 */
module Branches {
  import opened Options
  import opened Words
  import opened Arithmetic
  import opened Instructions
  import opened Interpreter
  import opened HostCode
  import opened Laws
  import opened Sequences
  import opened Products

  datatype Flags = Flags(zero: bool, carry: bool, sign: bool, overflow: bool)

  function TopBit(w: Width, x: int): bool {
    2 * Trunc(w, x) >= Modulus(w)
  }

  /** `cmp`: the flags of the difference of destination and source. */
  function Compared(w: Width, dst: u64, src: u64): Flags {
    var d: int := dst - src;
    var s: int := Signed(w, dst) - Signed(w, src);
    Flags(Trunc(w, d) == 0, Trunc(w, dst) < Trunc(w, src), TopBit(w, d), !(0 - Modulus(w) <= 2 * s < Modulus(w)))
  }

  /** `test`: the flags of the conjunction. */
  function Tested(w: Width, dst: u64, src: u64): Flags {
    var r := BitAnd(Trunc(w, dst), Trunc(w, src));
    Flags(r == 0, false, TopBit(w, r), false)
  }

  /** The conditional near jumps with a two-byte opcode, by the second byte. */
  predicate Jumps(opcode: nat, f: Flags) {
    if opcode == 0x82 then f.carry
    else if opcode == 0x83 then !f.carry
    else if opcode == 0x84 then f.zero
    else if opcode == 0x85 then !f.zero
    else if opcode == 0x86 then f.carry || f.zero
    else if opcode == 0x87 then !f.carry && !f.zero
    else if opcode == 0x8c then f.sign != f.overflow
    else if opcode == 0x8d then f.sign == f.overflow
    else if opcode == 0x8e then f.zero || f.sign != f.overflow
    else opcode == 0x8f && !f.zero && f.sign == f.overflow
  }

  /** The opcode that the compiler chooses for a condition, and whether it tests instead of comparing. */
  function OpcodeOf(c: Condition): (nat, bool)
    requires c != Always
  {
    match c
    case Eq => (0x84, false)
    case Gt => (0x87, false)
    case Ge => (0x83, false)
    case Lt => (0x82, false)
    case Le => (0x86, false)
    case Set => (0x85, true)
    case Ne => (0x85, false)
    case Sgt => (0x8f, false)
    case Sge => (0x8d, false)
    case Slt => (0x8c, false)
    case Sle => (0x8e, false)
  }

  /** Code in front of the comparison, and the second operand, if it is a register and not a constant. */
  datatype Branch = Branch(front: seq<X86>, opcode: nat, bitwise: bool, w: Width, dst: nat, src: Option<nat>, imm: int)

  function BranchReg(c: Condition, w: Width, src: nat, dst: nat): Branch
    requires c != Always
  {
    Branch([], OpcodeOf(c).0, OpcodeOf(c).1, w, dst, Some(src), 0)
  }

  function BranchImm(c: Condition, w: Width, imm: int, dst: nat, key: int, sanitize: bool): Branch
    requires c != Always
  {
    if sanitize then Branch(SanitizedLoad(SCRATCH, imm, key), OpcodeOf(c).0, OpcodeOf(c).1, w, dst, Some(SCRATCH), 0)
    else Branch([], OpcodeOf(c).0, OpcodeOf(c).1, w, dst, None, imm)
  }

  function EmitBranch(c: Condition, w: Width, source: Source, src: nat, dst: nat, imm: int, key: int,
                      sanitize: bool): Branch
    requires c != Always
  {
    if source == Reg then BranchReg(c, w, src, dst) else BranchImm(c, w, imm, dst, key, sanitize)
  }

  /** Whether the branch is taken, and the host behind it; none if the code in front does not get there. */
  function Decide(b: Branch, h: Host): Option<(bool, Host)> {
    match Exec(b.front, h)
    case On(t) =>
      var second := match b.src case Some(r) => Get(t, r) case None => Trunc(W64, b.imm);
      var flags := if b.bitwise then Tested(b.w, Get(t, b.dst), second) else Compared(b.w, Get(t, b.dst), second);
      Some((Jumps(b.opcode, flags), t))
    case _ => None
  }

  // ---------------------------------------------------------------- flags and conditions

  lemma Difference(m: nat, a: int, b: int)
    requires m > 0
    ensures (a - b) % m == if a % m >= b % m then a % m - b % m else a % m - b % m + m
  {
    var q, r := a / m - b / m, a % m - b % m;
    assert a == (a / m) * m + a % m && b == (b / m) * m + b % m;
    assert a - b == q * m + r;
    if r >= 0 {
      DivModUnique(m, q, r);
    } else {
      assert (q - 1) * m + (r + m) == q * m + r;
      DivModUnique(m, q - 1, r + m);
    }
  }

  lemma TruncOfDifference(w: Width, a: u64, b: u64)
    ensures var x: int, y: int := Trunc(w, a), Trunc(w, b); var d: int := a - b;
      Trunc(w, d) == if x >= y then x - y else x - y + Modulus(w)
  {
    Difference(Modulus(w), a, b);
  }

  /** The zero, carry, sign and overflow flags order the operands, unsigned and signed. */
  lemma FlagsCompare(w: Width, a: u64, b: u64)
    ensures var f := Compared(w, a, b);
      && (f.zero <==> Trunc(w, a) == Trunc(w, b)) && (f.zero <==> Signed(w, a) == Signed(w, b))
      && (f.carry <==> Trunc(w, a) < Trunc(w, b))
      && (f.sign != f.overflow <==> Signed(w, a) < Signed(w, b))
  {
    TruncOfDifference(w, a, b);
    TruncRange(w, a);
    TruncRange(w, b);
    hide Trunc;
  }

  /** The chosen jump follows the flags exactly when the condition holds. */
  lemma OpcodeIsRight(c: Condition, w: Width, a: u64, b: u64)
    requires c != Always
    ensures var (opcode, bitwise) := OpcodeOf(c);
      Jumps(opcode, if bitwise then Tested(w, a, b) else Compared(w, a, b)) <==> Holds(c, w, a, b)
  {
    hide Trunc, BitAnd, Signed, Compared, TopBit;
    FlagsCompare(w, a, b);
  }

  lemma SameLow(w: Width, imm: int, source: Source, register: u64)
    requires source == Imm || (source == LowImm && w == W32)
    ensures Trunc(w, Operand(source, imm, register)) == Trunc(w, Trunc(W64, imm))
  {
  }

  lemma HoldsByLow(c: Condition, w: Width, a: u64, b: u64, d: u64)
    requires Trunc(w, b) == Trunc(w, d)
    ensures Holds(c, w, a, b) <==> Holds(c, w, a, d)
  {
    hide Trunc, BitAnd;
  }

  /** A compiled branch is taken exactly when the interpreter takes it, and leaves the guest's registers alone. */
  lemma BranchIsRight(c: Condition, w: Width, source: Source, src: nat, dst: nat, imm: int, key: int, sanitize: bool,
                      h: Host)
    requires c != Always && Wide(h) && Guest(dst) && Guest(src)
    requires source == LowImm ==> w == W32
    ensures var r := Decide(EmitBranch(c, w, source, src, dst, imm, key, sanitize), h);
      && r.Some? && Untouched(h, r.value.1, SCRATCH)
      && (r.value.0 <==> Holds(c, w, h.reg[dst], Operand(source, imm, h.reg[src])))
  {
    hide Exec, Trunc, Holds, Jumps, Compared, Tested, OpcodeOf, SanitizedLoad, Operand;
    ExecNothing(h);
    if source == Reg {
      OpcodeIsRight(c, w, h.reg[dst], h.reg[src]);
      OperandIsRegister(imm, h.reg[src]);
    } else {
      if sanitize {
        SanitizedLoadLoads(SCRATCH, imm, key, h);
      }
      var second := Trunc(W64, imm);
      OpcodeIsRight(c, w, h.reg[dst], second);
      SameLow(w, imm, source, h.reg[src]);
      HoldsByLow(c, w, h.reg[dst], second, Operand(source, imm, h.reg[src]));
    }
  }

  lemma OperandIsRegister(imm: int, register: u64)
    ensures Operand(Reg, imm, register) == register
  {
  }
}
