/** The arithmetic of the instruction set on 64-bit registers. */
module Arithmetic {
  import opened Words

  datatype Width = W32 | W64

  /** The number of bits. */
  function Bits(w: Width): nat {
    if w == W32 then 32 else 64
  }

  function Modulus(w: Width): nat {
    if w == W32 then 0x1_0000_0000 else 0x1_0000_0000_0000_0000
  }

  /** The low bits of a number in two's complement. */
  function Trunc(w: Width, x: int): u64 {
    if w == W32 then x % 0x1_0000_0000 else x % 0x1_0000_0000_0000_0000
  }

  /** The low bits of a register read as a signed number. */
  function Signed(w: Width, x: int): int {
    var t := Trunc(w, x);
    if 2 * t < Modulus(w) then t else t - Modulus(w)
  }

  function SignExtend32(x: int): u64 {
    Trunc(W64, Signed(W32, x))
  }

  // ---------------------------------------------------------------- products, quotients and remainders

  datatype PqrOp = Lmul | Uhmul | Shmul | Udiv | Urem | Sdiv | Srem

  predicate IsDivision(op: PqrOp) {
    op == Udiv || op == Urem || op == Sdiv || op == Srem
  }

  predicate IsSigned(op: PqrOp) {
    op == Sdiv || op == Srem
  }

  function Abs(x: int): nat {
    if x >= 0 then x else -x
  }

  /** Division that truncates toward zero. */
  function Quotient(a: int, b: int): int
    requires b != 0
  {
    if (a >= 0) == (b > 0) then Abs(a) / Abs(b) else -(Abs(a) / Abs(b))
  }

  /** The remainder that belongs to it has the sign of the dividend. */
  function Remainder(a: int, b: int): int
    requires b != 0
  {
    if a >= 0 then Abs(a) % Abs(b) else -(Abs(a) % Abs(b))
  }

  /** The one quotient that does not fit: the smallest signed number divided by minus one. */
  predicate Overflows(w: Width, a: u64, b: u64) {
    Signed(w, a) == -(Modulus(w) / 2) && Signed(w, b) == -1
  }

  function Pqr(op: PqrOp, w: Width, a: u64, b: u64): u64
    requires IsDivision(op) ==> Trunc(w, b) != 0
    requires IsSigned(op) ==> !Overflows(w, a, b)
  {
    match op
    case Lmul => Trunc(w, a * b)
    case Uhmul => Trunc(W64, (a * b) / WORD)
    case Shmul => Trunc(W64, (Signed(W64, a) * Signed(W64, b)) / WORD)
    case Udiv => Trunc(W64, Trunc(w, a) / Trunc(w, b))
    case Urem => Trunc(W64, Trunc(w, a) % Trunc(w, b))
    case Sdiv => Trunc(w, Quotient(Signed(w, a), Signed(w, b)))
    case Srem => Trunc(w, Remainder(Signed(w, a), Signed(w, b)))
  }

  // ---------------------------------------------------------------- shifts

  datatype ShiftOp = Lsh | Rsh | Arsh

  /** Only the low five or six bits of the amount count. */
  function Shift(op: ShiftOp, w: Width, a: u64, amount: u64): u64 {
    var k := amount % Bits(w);
    match op
    case Lsh => Trunc(w, a * Pow2(k))
    case Rsh => Trunc(w, Trunc(w, a) / Pow2(k))
    case Arsh => Trunc(w, Signed(w, a) / Pow2(k))
  }

  // ---------------------------------------------------------------- the other operations

  function BitXor(a: nat, b: nat): nat
    decreases a + b
  {
    if a == 0 then b else if b == 0 then a else 2 * BitXor(a / 2, b / 2) + (if a % 2 != b % 2 then 1 else 0)
  }

  /** The last n bytes of x in the opposite order. */
  function SwapBytes(x: nat, n: nat): nat {
    if n == 0 then 0 else (x % 256) * Pow2(8 * (n - 1)) + SwapBytes(x / 256, n - 1)
  }

  datatype AluOp = Add | Sub | SubFrom | Mul | Or | And | Xor | Neg | Move | MoveSigned | HighOr

  /** The operand `a` is the old destination. Sums and products of 32 bits are sign extended unless `plain`. */
  function Alu(op: AluOp, w: Width, plain: bool, a: u64, b: u64): u64 {
    match op
    case Add => Extend(w, plain, a + b)
    case Sub => Extend(w, plain, a - b)
    case SubFrom => Extend(w, plain, b - a)
    case Mul => Extend(w, plain, a * b)
    case Or => Trunc(w, BitOr(Trunc(w, a), Trunc(w, b)))
    case And => Trunc(w, BitAnd(Trunc(w, a), Trunc(w, b)))
    case Xor => Trunc(w, BitXor(Trunc(w, a), Trunc(w, b)))
    case Neg => Opposite(w, a)
    case Move => Trunc(w, b)
    case MoveSigned => SignExtend32(b)
    case HighOr => Trunc(W64, BitOr(a, Trunc(W64, b * 0x1_0000_0000)))
  }

  function Opposite(w: Width, x: int): u64 {
    Trunc(w, -x)
  }

  function Extend(w: Width, plain: bool, x: int): u64 {
    if w == W64 || plain then Trunc(w, x) else SignExtend32(x)
  }

  // ---------------------------------------------------------------- comparisons

  datatype Condition = Always | Eq | Gt | Ge | Lt | Le | Set | Ne | Sgt | Sge | Slt | Sle

  predicate Holds(c: Condition, w: Width, a: u64, b: u64) {
    var x, y := Trunc(w, a), Trunc(w, b);
    var s, t := Signed(w, a), Signed(w, b);
    match c
    case Always => true
    case Eq => x == y
    case Gt => x > y
    case Ge => x >= y
    case Lt => x < y
    case Le => x <= y
    case Set => BitAnd(x, y) != 0
    case Ne => x != y
    case Sgt => s > t
    case Sge => s >= t
    case Slt => s < t
    case Sle => s <= t
  }
}
