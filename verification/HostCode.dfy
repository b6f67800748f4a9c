/** The host instructions that compiled arithmetic consists of, and what they do to registers, flag and stack. */
module HostCode {
  import opened Options
  import opened Words
  import opened Arithmetic
  import opened Interpreter

  const RAX: nat := 0
  const RCX: nat := 1
  const RDX: nat := 2
  const RSP: nat := 4
  const SCRATCH: nat := 11

  /** The zero flag is unknown where an instruction leaves it undefined or is not modelled to set it. */
  datatype Host = Host(reg: seq<u64>, stack: seq<u64>, zero: Option<bool>)

  datatype X86 =
    | LoadImmediate(dst: nat, imm: int)
    | Mov(w: Width, src: nat, dst: nat)
    | SignExtend(src: nat, dst: nat)
    | Xchg(src: nat, dst: nat)
    | Push(src: nat)
    | Pop(dst: nat)
    | AluReg(op: AluOp, w: Width, src: nat, dst: nat)
    | AluImm(op: AluOp, w: Width, dst: nat, imm: int)
    | ShiftImm(shift: ShiftOp, w: Width, dst: nat, imm: int)
    | RotateRight32(dst: nat)
    | Negate(w: Width, dst: nat)
    | Multiply(w: Width, src: nat, dst: nat)
    | SwapLow(dst: nat)
    | ByteSwap(w: Width, dst: nat)
    | ShiftCl(shift: ShiftOp, w: Width, dst: nat)
    | Test(w: Width, dst: nat)
    | Cmp(w: Width, src: nat, dst: nat)
    | CmpImm(w: Width, dst: nat, imm: int)
    | CmovNotZero(w: Width, src: nat, dst: nat)
    | ExtendRaxRdx(w: Width)
    | MulDiv(w: Width, division: bool, signed: bool, src: nat)
    | RaiseIfZero(fault: Fault)

  /** Execution goes on, leaves for an exception handler, or traps. */
  datatype Effect = On(h: Host) | Raised(fault: Fault, h: Host) | Trap

  ghost predicate Wide(h: Host) {
    |h.reg| == 16
  }

  function Put(h: Host, r: nat, x: u64): Host {
    if r < |h.reg| then h.(reg := h.reg[r := x]) else h
  }

  function Get(h: Host, r: nat): u64 {
    if r < |h.reg| then h.reg[r] else 0
  }

  function Flag(h: Host, z: bool): Host {
    h.(zero := Some(z))
  }

  function NoFlag(h: Host): Host {
    h.(zero := None)
  }

  function Rotate32(x: u64): u64 {
    (x % 0x1_0000_0000) * 0x1_0000_0000 + x / 0x1_0000_0000
  }

  /** Rotating the low half word by a byte. */
  function SwapLowBytes(x: u64): u64 {
    x - x % 0x1_0000 + (x % 0x100) * 0x100 + (x / 0x100) % 0x100
  }

  /** The double-width product or dividend arithmetic of opcode F7; None where the processor raises a divide error. */
  function Wide2(w: Width, division: bool, signed: bool, rax: u64, rdx: u64, x: u64): Option<(u64, u64)> {
    var m := Modulus(w);
    if !division then
      var product := if signed then Signed(w, rax) * Signed(w, x) else Trunc(w, rax) * Trunc(w, x);
      Some((Trunc(w, product), Trunc(w, product / m)))
    else if Trunc(w, x) == 0 then None
    else
      var dividend := (if signed then Signed(w, rdx) else Trunc(w, rdx)) * m + Trunc(w, rax);
      var divisor := if signed then Signed(w, x) else Trunc(w, x);
      var q := Quotient(dividend, divisor);
      if (if signed then 0 - m <= 2 * q < m else q < m)
        then Some((Trunc(w, q), Trunc(w, Remainder(dividend, divisor)))) else None
  }

  function One(i: X86, h: Host): Effect {
    match i
    case LoadImmediate(dst, imm) => On(Put(h, dst, Trunc(W64, imm)))
    case Mov(w, src, dst) => On(Put(h, dst, Trunc(w, Get(h, src))))
    case SignExtend(src, dst) => On(Put(h, dst, SignExtend32(Get(h, src))))
    case Xchg(src, dst) => On(Put(Put(h, src, Get(h, dst)), dst, Get(h, src)))
    case Push(src) => On(h.(stack := h.stack + [Get(h, src)]))
    case Pop(dst) => if |h.stack| == 0 then Trap
      else On(Put(h.(stack := h.stack[..|h.stack| - 1]), dst, h.stack[|h.stack| - 1]))
    case AluReg(op, w, src, dst) => On(NoFlag(Put(h, dst, Alu(op, w, true, Get(h, dst), Get(h, src)))))
    case AluImm(op, w, dst, imm) => On(NoFlag(Put(h, dst, Alu(op, w, true, Get(h, dst), Trunc(W64, imm)))))
    case ShiftImm(op, w, dst, imm) => On(NoFlag(Put(h, dst, Shift(op, w, Get(h, dst), imm % 0x100))))
    case RotateRight32(dst) => On(NoFlag(Put(h, dst, Rotate32(Get(h, dst)))))
    case Negate(w, dst) => On(NoFlag(Put(h, dst, Opposite(w, Get(h, dst)))))
    case Multiply(w, src, dst) => On(NoFlag(Put(h, dst, Trunc(w, Signed(w, Get(h, dst)) * Signed(w, Get(h, src))))))
    case SwapLow(dst) => On(NoFlag(Put(h, dst, SwapLowBytes(Get(h, dst)))))
    case ByteSwap(w, dst) => On(Put(h, dst, Trunc(W64, SwapBytes(Get(h, dst), Bits(w) / 8))))
    case ShiftCl(op, w, dst) => On(NoFlag(Put(h, dst, Shift(op, w, Get(h, dst), Get(h, RCX) % 0x100))))
    case Test(w, dst) => On(Flag(h, Trunc(w, Get(h, dst)) == 0))
    case Cmp(w, src, dst) => On(Flag(h, Trunc(w, Get(h, src)) == Trunc(w, Get(h, dst))))
    case CmpImm(w, dst, imm) => On(Flag(h, Trunc(w, imm) == Trunc(w, Get(h, dst))))
    case CmovNotZero(w, src, dst) =>
      if h.zero.None? then Trap else On(Put(h, dst, Trunc(w, Get(h, if h.zero.value then dst else src))))
    case ExtendRaxRdx(w) => On(Put(h, RDX, Trunc(w, if Signed(w, Get(h, RAX)) < 0 then -1 else 0)))
    case MulDiv(w, division, signed, src) =>
      (match Wide2(w, division, signed, Get(h, RAX), Get(h, RDX), Get(h, src))
       case None => Trap
       case Some(both) => On(NoFlag(Put(Put(h, RAX, both.0), RDX, both.1))))
    case RaiseIfZero(fault) =>
      if h.zero.None? then Trap else if h.zero.value then Raised(fault, h) else On(h)
  }

  function Then(e: Effect, i: X86): Effect {
    if e.On? then One(i, e.h) else e
  }

  function Exec(code: seq<X86>, h: Host): Effect {
    if |code| == 0 then On(h) else Then(Exec(code[..|code| - 1], h), code[|code| - 1])
  }

  lemma ExecSnoc(code: seq<X86>, i: X86, h: Host)
    ensures Exec(code + [i], h) == Then(Exec(code, h), i)
  {
    assert (code + [i])[..|code|] == code;
  }

  /** Code runs behind code. */
  lemma {:induction false} ExecAppend(a: seq<X86>, b: seq<X86>, h: Host)
    ensures Exec(a + b, h) == if Exec(a, h).On? then Exec(b, Exec(a, h).h) else Exec(a, h)
    decreases |b|
  {
    if b == [] {
      assert a + b == a;
    } else {
      var front := b[..|b| - 1];
      ExecAppend(a, front, h);
      assert a + b == (a + front) + [b[|b| - 1]];
      ExecSnoc(a + front, b[|b| - 1], h);
    }
  }

  lemma Exec1(a: X86, h: Host)
    ensures Exec([a], h) == One(a, h)
  {
    assert [a] == [] + [a];
    ExecSnoc([], a, h);
  }

  lemma Exec2(a: X86, b: X86, h: Host)
    ensures Exec([a, b], h) == Then(One(a, h), b)
  {
    assert [a, b] == [a] + [b];
    ExecSnoc([a], b, h);
    Exec1(a, h);
  }

  lemma Exec3(a: X86, b: X86, c: X86, h: Host)
    ensures Exec([a, b, c], h) == Then(Then(One(a, h), b), c)
  {
    assert [a, b, c] == [a, b] + [c];
    ExecSnoc([a, b], c, h);
    Exec2(a, b, h);
  }

  lemma Exec4(a: X86, b: X86, c: X86, d: X86, h: Host)
    ensures Exec([a, b, c, d], h) == Then(Then(Then(One(a, h), b), c), d)
  {
    assert [a, b, c, d] == [a, b, c] + [d];
    ExecSnoc([a, b, c], d, h);
    Exec3(a, b, c, h);
  }

  lemma Exec5(a: X86, b: X86, c: X86, d: X86, e: X86, h: Host)
    ensures Exec([a, b, c, d, e], h) == Then(Then(Then(Then(One(a, h), b), c), d), e)
  {
    assert [a, b, c, d, e] == [a, b, c, d] + [e];
    ExecSnoc([a, b, c, d], e, h);
    Exec4(a, b, c, d, h);
  }

  /** Nothing but the destination and the scratch register has changed. */
  ghost predicate Untouched(h: Host, t: Host, dst: nat) {
    && |t.reg| == |h.reg| && t.stack == h.stack
    && forall r :: 0 <= r < |h.reg| && r != dst && r != SCRATCH ==> t.reg[r] == h.reg[r]
  }

  /** A register that can hold a guest register. */
  predicate Guest(r: nat) {
    r < 16 && r != RSP && r != SCRATCH
  }

  lemma Pushes(src: nat, h: Host)
    requires Wide(h) && src < 16
    ensures One(Push(src), h) == On(h.(stack := h.stack + [h.reg[src]]))
  {
  }

  lemma Moves(src: nat, dst: nat, h: Host)
    requires Wide(h) && src < 16 && dst < 16
    ensures One(Mov(W64, src, dst), h) == On(Put(h, dst, h.reg[src]))
  {
  }

  lemma LoadsImmediate(dst: nat, imm: int, h: Host)
    ensures One(LoadImmediate(dst, imm), h) == On(Put(h, dst, Trunc(W64, imm)))
  {
  }

  lemma AddsImmediate(dst: nat, imm: int, h: Host)
    requires Wide(h) && dst < 16
    ensures var a: int, b: int := h.reg[dst], Trunc(W64, imm);
      One(AluImm(Add, W64, dst, imm), h) == On(NoFlag(Put(h, dst, Trunc(W64, a + b))))
  {
    hide Trunc;
  }

  lemma AddsRegister(src: nat, dst: nat, h: Host)
    requires Wide(h) && src < 16 && dst < 16
    ensures var a: int, b: int := h.reg[dst], h.reg[src];
      One(AluReg(Add, W64, src, dst), h) == On(NoFlag(Put(h, dst, Trunc(W64, a + b))))
  {
    hide Trunc;
  }

  lemma Exchanges(src: nat, dst: nat, h: Host)
    requires Wide(h) && src < 16 && dst < 16
    ensures One(Xchg(src, dst), h) == On(h.(reg := h.reg[src := h.reg[dst]][dst := h.reg[src]]))
  {
  }

  lemma ShiftsByCl(op: ShiftOp, w: Width, dst: nat, h: Host)
    requires Wide(h) && dst < 16
    ensures One(ShiftCl(op, w, dst), h) == On(NoFlag(Put(h, dst, Shift(op, w, h.reg[dst], h.reg[RCX] % 0x100))))
  {
    hide Shift;
  }

  lemma ShiftsBy(op: ShiftOp, w: Width, dst: nat, amount: nat, h: Host)
    requires Wide(h) && dst < 16 && amount < 0x100
    ensures One(ShiftImm(op, w, dst, amount), h) == On(NoFlag(Put(h, dst, Shift(op, w, h.reg[dst], amount))))
  {
    hide Shift;
  }

  lemma Rotates(dst: nat, h: Host)
    requires Wide(h) && dst < 16
    ensures One(RotateRight32(dst), h) == On(NoFlag(Put(h, dst, Rotate32(h.reg[dst]))))
  {
    hide Rotate32;
  }

  lemma Tests(w: Width, dst: nat, h: Host)
    requires Wide(h) && dst < 16
    ensures One(Test(w, dst), h) == On(Flag(h, Trunc(w, h.reg[dst]) == 0))
  {
    hide Trunc;
  }

  lemma RaisesIfZero(fault: Fault, h: Host, z: bool)
    requires h.zero == Some(z)
    ensures One(RaiseIfZero(fault), h) == if z then Raised(fault, h) else On(h)
  {
  }

  lemma MovesIfNotZero(w: Width, src: nat, dst: nat, h: Host, z: bool)
    requires Wide(h) && src < 16 && dst < 16 && h.zero == Some(z)
    ensures One(CmovNotZero(w, src, dst), h) == On(Put(h, dst, Trunc(w, h.reg[if z then dst else src])))
  {
    hide Trunc;
  }

  lemma ComparesImmediate(w: Width, dst: nat, imm: int, h: Host)
    requires Wide(h) && dst < 16
    ensures One(CmpImm(w, dst, imm), h) == On(Flag(h, Trunc(w, imm) == Trunc(w, h.reg[dst])))
  {
    hide Trunc;
  }

  lemma Pops(dst: nat, h: Host, stack: seq<u64>, x: u64)
    requires Wide(h) && dst < 16 && h.stack == stack + [x]
    ensures One(Pop(dst), h) == On(Put(h.(stack := stack), dst, x))
  {
    assert h.stack[..|stack|] == stack;
  }
}
