/** The instruction sequences that the compiler emits for constants, shifts, products, quotients and remainders. */
module Sequences {
  import opened Options
  import opened Words
  import opened Arithmetic
  import opened Instructions
  import opened Interpreter
  import opened HostCode

  // ---------------------------------------------------------------- constants under a key

  predicate Fits32(x: int) {
    -0x8000_0000 <= x < 0x8000_0000
  }

  function Wrapping(x: int): int {
    Signed(W64, x)
  }

  /** A constant masked by a random key, so that it does not appear in the code. */
  function SanitizedLoad(dst: nat, value: int, key: int): seq<X86> {
    var lower := Signed(W32, key);
    if Fits32(value) then
      [LoadImmediate(dst, Wrapping(value - lower)), AluImm(Add, W64, dst, lower)]
    else if Trunc(W32, value) == 0 then
      [LoadImmediate(dst, Wrapping(Rotate32(Trunc(W64, value)) - lower)), AluImm(Add, W64, dst, lower),
        ShiftImm(Lsh, W64, dst, 32)]
    else if dst != SCRATCH then
      [LoadImmediate(dst, Wrapping(value - key)), LoadImmediate(SCRATCH, key), AluReg(Add, W64, SCRATCH, dst)]
    else
      var upper := Signed(W32, key / 0x1_0000_0000);
      var first := Trunc(W64, value - lower);
      [LoadImmediate(dst, Wrapping(Rotate32(first) - upper)), AluImm(Add, W64, dst, upper), RotateRight32(dst),
        AluImm(Add, W64, dst, lower)]
  }

  lemma TruncAdds(x: int, y: int)
    ensures Trunc(W64, Trunc(W64, x) + y) == Trunc(W64, x + y)
    ensures Trunc(W64, Wrapping(x)) == Trunc(W64, x)
    ensures Trunc(W64, Trunc(W64, x) + Trunc(W64, y)) == Trunc(W64, x + y)
  {
    var q, r := x / WORD, y / WORD;
    assert Trunc(W64, x) + y == (x + y) + (-q) * WORD;
    ModAdds(x + y, -q, WORD);
    assert Trunc(W64, x) + Trunc(W64, y) == (x + y) + (-q - r) * WORD;
    ModAdds(x + y, -q - r, WORD);
  }

  lemma RotateTwice(x: u64)
    ensures Rotate32(Rotate32(x)) == x
  {
  }

  /** Adding back what was subtracted. */
  lemma AddBack(x: int, y: int)
    ensures Trunc(W64, Trunc(W64, Wrapping(x - y)) + Trunc(W64, y)) == Trunc(W64, x)
  {
    hide Trunc, Signed;
    TruncAdds(x - y, y);
    TruncAdds(Wrapping(x - y), y);
  }

  lemma HighHalf(value: int)
    requires Trunc(W32, value) == 0
    ensures Shift(Lsh, W64, Rotate32(Trunc(W64, value)), 32) == Trunc(W64, value)
  {
    hide Trunc, Pow2;
    Pow2Is32();
    var x := Trunc(W64, value);
    LowHalfIsZero(value);
    var h := x / 0x1_0000_0000;
    assert x == h * 0x1_0000_0000;
    assert Rotate32(x) == h;
    TruncIsIdentity(x);
  }

  lemma LowHalfIsZero(value: int)
    requires Trunc(W32, value) == 0
    ensures Trunc(W64, value) % 0x1_0000_0000 == 0
  {
    ModOfMod(value, 0x1_0000_0000, 0x1_0000_0000);
  }

  lemma Pow2Is32()
    ensures Pow2(32) == 0x1_0000_0000
  {
    assert Pow2(8) == 256;
    Pow2Adds(8, 8);
    Pow2Adds(16, 16);
  }

  /** Whatever the key, the register ends up with the constant, and only the scratch register changes besides. */
  lemma SanitizedLoadLoads(dst: nat, value: int, key: int, h: Host)
    requires Wide(h) && dst < 16
    ensures var e := Exec(SanitizedLoad(dst, value, key), h);
      e.On? && Untouched(h, e.h, dst) && e.h.reg[dst] == Trunc(W64, value)
  {
    hide Trunc, Signed, Wrapping, Rotate32, Untouched, Exec;
    if Fits32(value) {
      LoadsSmall(dst, value, key, h);
    } else if Trunc(W32, value) == 0 {
      LoadsHigh(dst, value, key, h);
    } else if dst != SCRATCH {
      LoadsThroughScratch(dst, value, key, h);
    } else {
      LoadsInHalves(value, key, h);
    }
  }

  /** Code that leaves a value in a register and touches nothing else but the scratch register. */
  ghost predicate Loaded(e: Effect, h: Host, dst: nat, x: u64)
    requires dst < 16
  {
    e.On? && Untouched(h, e.h, dst) && |h.reg| == 16 && e.h.reg[dst] == x
  }

  /** A 32-bit constant: load the difference, add the key. */
  lemma LoadsSmall(dst: nat, value: int, key: int, h: Host)
    requires Wide(h) && dst < 16 && Fits32(value)
    ensures Loaded(Exec(SanitizedLoad(dst, value, key), h), h, dst, Trunc(W64, value))
  {
    hide Trunc, Signed, Wrapping, One, Exec;
    var lower := Signed(W32, key);
    Exec2(LoadImmediate(dst, Wrapping(value - lower)), AluImm(Add, W64, dst, lower), h);
    LoadsImmediate(dst, Wrapping(value - lower), h);
    AddsImmediate(dst, lower, Put(h, dst, Trunc(W64, Wrapping(value - lower))));
    AddBack(value, lower);
  }

  /** A constant without a lower half: the same with the halves exchanged, then a shift. */
  lemma LoadsHigh(dst: nat, value: int, key: int, h: Host)
    requires Wide(h) && dst < 16 && !Fits32(value) && Trunc(W32, value) == 0
    ensures Loaded(Exec(SanitizedLoad(dst, value, key), h), h, dst, Trunc(W64, value))
  {
    hide Trunc, Signed, Wrapping, One, Exec, Shift, Rotate32;
    var lower, x := Signed(W32, key), Rotate32(Trunc(W64, value));
    Exec3(LoadImmediate(dst, Wrapping(x - lower)), AluImm(Add, W64, dst, lower), ShiftImm(Lsh, W64, dst, 32), h);
    LoadsImmediate(dst, Wrapping(x - lower), h);
    var a := Put(h, dst, Trunc(W64, Wrapping(x - lower)));
    AddsImmediate(dst, lower, a);
    AddBack(x, lower);
    TruncIsIdentity(x);
    ShiftsBy(Lsh, W64, dst, 32, NoFlag(Put(a, dst, x)));
    HighHalf(value);
  }

  /** Any other constant: load the difference, and the key into the scratch register. */
  lemma LoadsThroughScratch(dst: nat, value: int, key: int, h: Host)
    requires Wide(h) && dst < 16 && dst != SCRATCH && !Fits32(value) && Trunc(W32, value) != 0
    ensures Loaded(Exec(SanitizedLoad(dst, value, key), h), h, dst, Trunc(W64, value))
  {
    hide Trunc, Signed, Wrapping, One, Exec;
    Exec3(LoadImmediate(dst, Wrapping(value - key)), LoadImmediate(SCRATCH, key), AluReg(Add, W64, SCRATCH, dst), h);
    LoadsImmediate(dst, Wrapping(value - key), h);
    var a := Put(h, dst, Trunc(W64, Wrapping(value - key)));
    LoadsImmediate(SCRATCH, key, a);
    AddsRegister(SCRATCH, dst, Put(a, SCRATCH, Trunc(W64, key)));
    AddBack(value, key);
  }

  /** Into the scratch register itself: both halves of the key are added, with a rotation in between. */
  lemma LoadsInHalves(value: int, key: int, h: Host)
    requires Wide(h) && !Fits32(value) && Trunc(W32, value) != 0
    ensures Loaded(Exec(SanitizedLoad(SCRATCH, value, key), h), h, SCRATCH, Trunc(W64, value))
  {
    hide Trunc, Signed, Wrapping, One, Exec, Rotate32;
    var lower, upper := Signed(W32, key), Signed(W32, key / 0x1_0000_0000);
    var first := Trunc(W64, value - lower);
    Exec4(LoadImmediate(SCRATCH, Wrapping(Rotate32(first) - upper)), AluImm(Add, W64, SCRATCH, upper),
          RotateRight32(SCRATCH), AluImm(Add, W64, SCRATCH, lower), h);
    LoadsImmediate(SCRATCH, Wrapping(Rotate32(first) - upper), h);
    var a := Put(h, SCRATCH, Trunc(W64, Wrapping(Rotate32(first) - upper)));
    AddsImmediate(SCRATCH, upper, a);
    AddBack(Rotate32(first), upper);
    TruncIsIdentity(Rotate32(first));
    var b := NoFlag(Put(a, SCRATCH, Rotate32(first)));
    Rotates(SCRATCH, b);
    RotateTwice(first);
    AddsImmediate(SCRATCH, lower, NoFlag(Put(b, SCRATCH, first)));
    AddBack(value, lower);
    TruncAdds(value - lower, lower);
  }

  lemma TruncIsIdentity(x: u64)
    ensures Trunc(W64, x) == x
  {
  }

  // ---------------------------------------------------------------- arithmetic with a constant

  function SanitizedAlu(op: AluOp, w: Width, dst: nat, imm: int, key: int, sanitize: bool): seq<X86> {
    if sanitize then SanitizedLoad(SCRATCH, imm, key) + [AluReg(op, w, SCRATCH, dst)]
    else if Fits32(imm) then [AluImm(op, w, dst, imm)]
    else [LoadImmediate(SCRATCH, imm), AluReg(op, w, SCRATCH, dst)]
  }

  /** Masked or not, the operation sees the constant. */
  lemma SanitizedAluComputes(op: AluOp, w: Width, dst: nat, imm: int, key: int, sanitize: bool, h: Host)
    requires Wide(h) && Guest(dst)
    ensures var e := Exec(SanitizedAlu(op, w, dst, imm, key, sanitize), h);
      e.On? && Untouched(h, e.h, dst) && e.h.reg[dst] == Alu(op, w, true, h.reg[dst], Trunc(W64, imm))
  {
    hide Alu, Trunc, SanitizedLoad;
    if sanitize {
      SanitizedLoadLoads(SCRATCH, imm, key, h);
      ExecSnoc(SanitizedLoad(SCRATCH, imm, key), AluReg(op, w, SCRATCH, dst), h);
    } else if Fits32(imm) {
      Exec1(AluImm(op, w, dst, imm), h);
    } else {
      Exec2(LoadImmediate(SCRATCH, imm), AluReg(op, w, SCRATCH, dst), h);
    }
  }

  // ---------------------------------------------------------------- shifts

  function EmitShift(op: ShiftOp, w: Width, src: nat, dst: nat, imm: Option<int>): seq<X86> {
    if imm.Some? then [ShiftImm(op, w, dst, imm.value)]
    else (if w == W32 then [Mov(W32, dst, dst)] else []) + ShiftByRegister(op, w, src, dst)
  }

  /** The amount has to be in RCX, whose own value is kept on the stack meanwhile. */
  function ShiftByRegister(op: ShiftOp, w: Width, src: nat, dst: nat): seq<X86> {
    if src == RCX then [ShiftCl(op, w, dst)]
    else if dst == RCX then [Push(src), Xchg(src, RCX), ShiftCl(op, w, src), Mov(W64, src, RCX), Pop(src)]
    else [Push(RCX), Mov(W64, src, RCX), ShiftCl(op, w, dst), Pop(RCX)]
  }

  /** Only the low bits of the operand and of the amount count. */
  lemma ShiftTruncates(op: ShiftOp, w: Width, a: u64, amount: int)
    ensures Shift(op, w, Trunc(w, a), Trunc(W64, amount)) == Shift(op, w, a, Trunc(W64, amount))
    ensures Shift(op, w, a, amount % 0x100) == Shift(op, w, a, Trunc(W64, amount))
    ensures Shift(op, w, a, Trunc(w, amount)) == Shift(op, w, a, Trunc(W64, amount))
  {
    hide Pow2, Trunc, Signed;
    AmountBits(w, amount);
    TruncTwice(w, a);
    TruncOfProduct(w, a, Pow2(amount % Bits(w)));
  }

  lemma AmountBits(w: Width, amount: int)
    ensures (amount % 0x100) % Bits(w) == amount % Bits(w)
    ensures Trunc(W64, amount) % Bits(w) == amount % Bits(w)
    ensures Trunc(w, amount) % Bits(w) == amount % Bits(w)
  {
    ModOfMod(amount, 0x100 / Bits(w), Bits(w));
    ModOfMod(amount, 0x1_0000_0000_0000_0000 / Bits(w), Bits(w));
    ModOfMod(amount, 0x1_0000_0000 / Bits(w), Bits(w));
  }

  lemma ModOfMod(x: int, k: int, m: int)
    requires m > 0 && k > 0
    ensures k * m > 0 && (x % (k * m)) % m == x % m
  {
    var q, r := x / (k * m), x % (k * m);
    assert x == q * (k * m) + r == r + (q * k) * m;
    ModAdds(r, q * k, m);
  }

  lemma TruncTwice(w: Width, a: int)
    ensures Trunc(w, Trunc(w, a)) == Trunc(w, a) && Signed(w, Trunc(w, a)) == Signed(w, a)
  {
  }

  lemma TruncOfProduct(w: Width, a: int, b: int)
    ensures Trunc(w, Trunc(w, a) * b) == Trunc(w, a * b)
  {
    var m: int := Modulus(w);
    var q := a / m;
    assert a == q * m + Trunc(w, a);
    assert a * b == Trunc(w, a) * b + (q * b) * m;
    ModAdds(Trunc(w, a) * b, q * b, m);
  }

  lemma ModAdds(x: int, k: int, m: int)
    requires m > 0
    ensures (x + k * m) % m == x % m
  {
    var q, r := x / m, x % m;
    assert x == q * m + r;
    assert x + k * m == (q + k) * m + r;
    DivModUnique(m, q + k, r);
  }

  /** The emitted shift gives the interpreter's result, for every amount and every overlap with RCX. */
  lemma ShiftIsEmitted(op: ShiftOp, w: Width, src: nat, dst: nat, imm: Option<int>, h: Host)
    requires Wide(h) && Guest(src) && Guest(dst)
    ensures var e := Exec(EmitShift(op, w, src, dst, imm), h);
      && e.On? && Untouched(h, e.h, dst) && e.h.reg[SCRATCH] == h.reg[SCRATCH]
      && e.h.reg[dst] == Shift(op, w, h.reg[dst], if imm.Some? then Trunc(W64, imm.value) else h.reg[src])
  {
    hide Shift, Trunc;
    var a := h.reg[dst];
    if imm.Some? {
      Exec1(ShiftImm(op, w, dst, imm.value), h);
      ShiftTruncates(op, w, a, imm.value);
    } else {
      var first := if w == W32 then [Mov(W32, dst, dst)] else [];
      var t := Put(h, dst, Trunc(w, a));
      TruncIsIdentity(a);
      assert w == W64 ==> t.reg == h.reg;
      Exec1(Mov(W32, dst, dst), h);
      assert Exec(first, h) == On(t);
      ExecAppend(first, ShiftByRegister(op, w, src, dst), h);
      RegisterShift(op, w, src, dst, t);
      TruncIsIdentity(h.reg[src]);
      ShiftTruncates(op, w, a, h.reg[src]);
      if src == dst {
        ShiftOfItself(op, w, a);
      }
    }
  }

  lemma ShiftOfItself(op: ShiftOp, w: Width, a: u64)
    ensures Shift(op, w, Trunc(w, a), Trunc(w, a)) == Shift(op, w, a, a)
  {
    hide Shift, Trunc;
    TruncIsIdentity(a);
    TruncIsIdentity(Trunc(w, a));
    ShiftTruncates(op, w, a, a);
    ShiftTruncates(op, w, a, Trunc(w, a));
  }

  lemma RegisterShift(op: ShiftOp, w: Width, src: nat, dst: nat, h: Host)
    requires Wide(h) && Guest(src) && Guest(dst)
    ensures var e := Exec(ShiftByRegister(op, w, src, dst), h);
      && e.On? && Untouched(h, e.h, dst) && e.h.reg[SCRATCH] == h.reg[SCRATCH]
      && e.h.reg[dst] == Shift(op, w, h.reg[dst], h.reg[src])
  {
    hide Shift, Trunc, Exec, One;
    TruncIsIdentity(h.reg[src]);
    ShiftTruncates(op, w, h.reg[dst], h.reg[src]);
    if src == RCX {
      Exec1(ShiftCl(op, w, dst), h);
      ClIsShift(op, w, dst, h);
    } else if dst == RCX {
      ShiftOfRcx(op, w, src, h);
    } else {
      ShiftOfOther(op, w, src, dst, h);
    }
  }

  lemma ClIsShift(op: ShiftOp, w: Width, dst: nat, h: Host)
    requires Wide(h) && Guest(dst)
    ensures One(ShiftCl(op, w, dst), h) == On(NoFlag(Put(h, dst, Shift(op, w, h.reg[dst], h.reg[RCX] % 0x100))))
  {
  }

  lemma ShiftOfRcx(op: ShiftOp, w: Width, src: nat, h: Host)
    requires Wide(h) && Guest(src) && src != RCX
    ensures var e := Exec(ShiftByRegister(op, w, src, RCX), h);
      && e.On? && Untouched(h, e.h, RCX) && e.h.reg[SCRATCH] == h.reg[SCRATCH]
      && e.h.reg[RCX] == Shift(op, w, h.reg[RCX], h.reg[src] % 0x100)
  {
    hide Shift, Trunc, One, Exec;
    Exec5(Push(src), Xchg(src, RCX), ShiftCl(op, w, src), Mov(W64, src, RCX), Pop(src), h);
    Pushes(src, h);
    var a := h.(stack := h.stack + [h.reg[src]]);
    Exchanges(src, RCX, a);
    var b := a.(reg := a.reg[src := a.reg[RCX]][RCX := a.reg[src]]);
    ShiftsByCl(op, w, src, b);
    var c := NoFlag(Put(b, src, Shift(op, w, h.reg[RCX], h.reg[src] % 0x100)));
    Moves(src, RCX, c);
    Pops(src, Put(c, RCX, c.reg[src]), h.stack, h.reg[src]);
  }

  lemma ShiftOfOther(op: ShiftOp, w: Width, src: nat, dst: nat, h: Host)
    requires Wide(h) && Guest(src) && Guest(dst) && src != RCX && dst != RCX
    ensures var e := Exec(ShiftByRegister(op, w, src, dst), h);
      && e.On? && Untouched(h, e.h, dst) && e.h.reg[SCRATCH] == h.reg[SCRATCH]
      && e.h.reg[dst] == Shift(op, w, h.reg[dst], h.reg[src] % 0x100)
  {
    hide Shift, Trunc, One, Exec;
    Exec4(Push(RCX), Mov(W64, src, RCX), ShiftCl(op, w, dst), Pop(RCX), h);
    Pushes(RCX, h);
    var a := h.(stack := h.stack + [h.reg[RCX]]);
    Moves(src, RCX, a);
    var b := Put(a, RCX, a.reg[src]);
    ShiftsByCl(op, w, dst, b);
    Pops(RCX, NoFlag(Put(b, dst, Shift(op, w, h.reg[dst], h.reg[src] % 0x100))), h.stack, h.reg[RCX]);
  }
}
