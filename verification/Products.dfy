/** The emitted code for products, quotients and remainders gives the interpreter's result or its error. */
module Products {
  import opened Options
  import opened Words
  import opened Arithmetic
  import opened Instructions
  import opened Interpreter
  import opened HostCode
  import opened Laws
  import opened Sequences

  // ---------------------------------------------------------------- emitting

  /** How the operation code selects the result and the kind of arithmetic. */
  predicate UsesRdx(op: PqrOp) { op == Uhmul || op == Shmul || op == Urem || op == Srem }
  predicate SignedArithmetic(op: PqrOp) { op == Lmul || op == Shmul || op == Sdiv || op == Srem }

  function Smallest(w: Width): int {
    if w == W64 then -0x8000_0000_0000_0000 else -0x8000_0000
  }

  function GuardZero(w: Width, src: nat, pc: nat): seq<X86> {
    [LoadImmediate(SCRATCH, pc), Test(w, src), RaiseIfZero(DivideByZero)]
  }

  /** The scratch register ends up zero exactly if the destination is the smallest number and the source is -1. */
  function GuardOverflow(w: Width, src: nat, dst: nat, pc: nat): seq<X86> {
    [LoadImmediate(SCRATCH, Smallest(w)), Cmp(w, dst, SCRATCH)]
    + [LoadImmediate(SCRATCH, 0), CmovNotZero(w, src, SCRATCH), CmpImm(w, src, -1), CmovNotZero(w, src, SCRATCH),
      Test(w, SCRATCH)]
    + [LoadImmediate(SCRATCH, pc), RaiseIfZero(DivideOverflow)]
  }

  function GuardMinusOne(w: Width, dst: nat, pc: nat): seq<X86> {
    [LoadImmediate(SCRATCH, Smallest(w)), Cmp(w, dst, SCRATCH)]
      + [LoadImmediate(SCRATCH, pc), RaiseIfZero(DivideOverflow)]
  }

  function Guards(op: PqrOp, w: Width, src: nat, dst: nat, imm: Option<int>, pc: nat): seq<X86> {
    if !IsDivision(op) then []
    else if imm.None? then GuardZero(w, src, pc) + (if SignedArithmetic(op) then GuardOverflow(w, src, dst, pc) else [])
    else if SignedArithmetic(op) && imm.value == -1 then GuardMinusOne(w, dst, pc)
    else []
  }

  function LoadOperand(src: nat, imm: Option<int>, key: int, sanitize: bool): seq<X86> {
    if imm.None? then [Mov(W64, src, SCRATCH)]
    else if sanitize then SanitizedLoad(SCRATCH, imm.value, key)
    else [LoadImmediate(SCRATCH, imm.value)]
  }

  function Save(dst: nat): seq<X86> {
    (if dst != RAX then [Push(RAX), Mov(W64, dst, RAX)] else []) + (if dst != RDX then [Push(RDX)] else [])
  }

  function Core(op: PqrOp, w: Width): seq<X86> {
    (if !IsDivision(op) then [] else if SignedArithmetic(op) then [ExtendRaxRdx(w)] else [AluReg(Xor, w, RDX, RDX)])
    + [MulDiv(w, IsDivision(op), SignedArithmetic(op), SCRATCH)]
  }

  function Restore(op: PqrOp, dst: nat): seq<X86> {
    (if dst != RDX then (if UsesRdx(op) then [Mov(W64, RDX, dst)] else []) + [Pop(RDX)] else [])
    + (if dst != RAX then (if !UsesRdx(op) then [Mov(W64, RAX, dst)] else []) + [Pop(RAX)] else [])
  }

  function Tail(v: Version, op: PqrOp, w: Width, dst: nat): seq<X86> {
    if w == W32 && SignedArithmetic(op) && !ExplicitSignExtension(v) then [SignExtend(dst, dst)] else []
  }

  function EmitProduct(v: Version, op: PqrOp, w: Width, src: nat, dst: nat, imm: Option<int>, key: int, sanitize: bool,
                       pc: nat): seq<X86> {
    Guards(op, w, src, dst, imm, pc) + LoadOperand(src, imm, key, sanitize) + Save(dst) + Core(op, w)
      + Restore(op, dst) + Tail(v, op, w, dst)
  }

  // ---------------------------------------------------------------- the core computes

  /** RAX and RDX after the core. */
  function Halves(op: PqrOp, w: Width, a: u64, rdx: u64, b: u64): Option<(u64, u64)> {
    var extended := if !IsDivision(op) then rdx
      else if SignedArithmetic(op) then Trunc(w, if Signed(w, a) < 0 then -1 else 0) else 0;
    Wide2(w, IsDivision(op), SignedArithmetic(op), a, extended, b)
  }

  lemma SignedProduct(w: Width, a: u64, b: u64)
    ensures Trunc(w, Signed(w, a) * Signed(w, b)) == Trunc(w, a * b)
  {
    hide Trunc, Signed;
    SignedIsCongruent(w, a);
    SignedIsCongruent(w, b);
    TruncOfProduct(w, a, b);
    TruncOfProduct(w, Signed(w, a), Signed(w, b));
    TruncOfProduct(w, b, Trunc(w, a));
    TruncOfProduct(w, Signed(w, b), Trunc(w, Signed(w, a)));
    Commutes(Trunc(w, a), b);
    Commutes(Trunc(w, Signed(w, a)), Signed(w, b));
  }

  lemma Commutes(x: int, y: int)
    ensures x * y == y * x
  {
  }

  lemma SignedIsCongruent(w: Width, a: int)
    ensures Trunc(w, Signed(w, a)) == Trunc(w, a)
  {
  }

  /** Sign extension into RDX makes the double-width dividend equal to the signed dividend. */
  lemma DividendIsSigned(w: Width, a: u64)
    ensures Signed(w, Trunc(w, if Signed(w, a) < 0 then -1 else 0)) * Modulus(w) + Trunc(w, a) == Signed(w, a)
  {
  }

  lemma SmallTrunc(w: Width, x: int)
    requires 0 <= x < Modulus(w)
    ensures Trunc(w, x) == Trunc(W64, x) == x
  {
  }

  lemma UnsignedCore(op: PqrOp, w: Width, a: u64, rdx: u64, b: u64)
    requires (op == Udiv || op == Urem) && Trunc(w, b) != 0
    ensures var r := Halves(op, w, a, rdx, b);
      r.Some? && (if UsesRdx(op) then r.value.1 else r.value.0) == Pqr(op, w, a, b)
  {
    hide Trunc, Signed, Modulus, Quotient, Remainder;
    TruncOfZero(w);
    TruncRange(w, a);
    TruncRange(w, b);
    var x, y := Trunc(w, a), Trunc(w, b);
    NaturalQuotient(x, y);
    SmallTrunc(w, Quotient(x, y));
    SmallTrunc(w, Remainder(x, y));
  }

  lemma NaturalQuotient(x: nat, y: nat)
    requires y > 0
    ensures Quotient(x, y) == x / y && Remainder(x, y) == x % y && 0 <= Quotient(x, y) <= x && 0 <= Remainder(x, y) < y
  {
    hide Quotient, Remainder;
    OfNaturals(x, y);
    DivisionShrinks(x, y);
    RemainderShrinks(x, y);
  }

  lemma OfNaturals(x: nat, y: nat)
    requires y > 0
    ensures Quotient(x, y) == x / y && Remainder(x, y) == x % y
  {
    assert Abs(x) == x && Abs(y) == y;
  }

  lemma RemainderShrinks(n: nat, d: nat)
    requires d > 0
    ensures 0 <= n % d < d
  {
  }

  lemma TruncOfZero(w: Width)
    ensures Trunc(w, 0) == 0
  {
  }

  lemma SignedCore(op: PqrOp, w: Width, a: u64, rdx: u64, b: u64)
    requires IsSigned(op) && Trunc(w, b) != 0 && !Overflows(w, a, b)
    ensures var r := Halves(op, w, a, rdx, b);
      r.Some? && (if UsesRdx(op) then r.value.1 else r.value.0) == Pqr(op, w, a, b)
  {
    TruncRange(w, a);
    TruncRange(w, b);
    hide Trunc, Signed, Modulus, Quotient, Remainder;
    DividendIsSigned(w, a);
    QuotientBound(Signed(w, a), Signed(w, b), Modulus(w));
  }

  lemma HighProductCore(op: PqrOp, a: u64, rdx: u64, b: u64)
    requires op == Uhmul || op == Shmul
    ensures var r := Halves(op, W64, a, rdx, b); r.Some? && r.value.1 == Pqr(op, W64, a, b)
  {
    hide Trunc, Signed;
    TruncIsIdentity(a);
    TruncIsIdentity(b);
  }

  lemma LowProductCore(w: Width, a: u64, rdx: u64, b: u64)
    ensures var r := Halves(Lmul, w, a, rdx, b); r.Some? && r.value.0 == Pqr(Lmul, w, a, b)
  {
    hide Trunc, Signed;
    SignedProduct(w, a, b);
  }

  /** One of the two halves is the result. */
  lemma CoreComputes(op: PqrOp, w: Width, a: u64, rdx: u64, b: u64)
    requires IsDivision(op) ==> Trunc(w, b) != 0
    requires IsSigned(op) ==> !Overflows(w, a, b)
    requires op == Uhmul || op == Shmul ==> w == W64
    ensures var r := Halves(op, w, a, rdx, b);
      && r.Some? && (if UsesRdx(op) then r.value.1 else r.value.0) == Pqr(op, w, a, b)
      && PqrMeans(op, w, a, b, if UsesRdx(op) then r.value.1 else r.value.0)
  {
    hide Halves, Pqr, Trunc, Overflows, PqrMeans;
    PqrLaw(op, w, a, b);
    match op
    case Lmul => LowProductCore(w, a, rdx, b);
    case Uhmul => HighProductCore(op, a, rdx, b);
    case Shmul => HighProductCore(op, a, rdx, b);
    case Udiv => UnsignedCore(op, w, a, rdx, b);
    case Urem => UnsignedCore(op, w, a, rdx, b);
    case Sdiv => SignedCore(op, w, a, rdx, b);
    case Srem => SignedCore(op, w, a, rdx, b);
  }

  // ---------------------------------------------------------------- the code runs

  lemma {:induction false} XorSelf(x: nat)
    ensures BitXor(x, x) == 0
  {
    if x > 0 {
      XorSelf(x / 2);
    }
  }

  lemma XorClears(w: Width, h: Host)
    requires Wide(h)
    ensures One(AluReg(Xor, w, RDX, RDX), h) == On(NoFlag(Put(h, RDX, 0)))
  {
    hide Trunc, BitXor;
    XorSelf(Trunc(w, h.reg[RDX]));
    TruncOfZero(w);
  }

  /** The registers that the core reads, and the result that it leaves in RAX and RDX. */
  ghost predicate CoreLeaves(op: PqrOp, w: Width, h: Host, t: Host)
    requires Wide(h)
  {
    var r := Halves(op, w, h.reg[RAX], h.reg[RDX], h.reg[SCRATCH]);
    r.Some? && t == NoFlag(Put(Put(h, RAX, r.value.0), RDX, r.value.1))
  }

  lemma MulDivRuns(w: Width, division: bool, signed: bool, h: Host)
    requires Wide(h)
    ensures var r := Wide2(w, division, signed, h.reg[RAX], h.reg[RDX], h.reg[SCRATCH]);
      r.Some? ==>
        One(MulDiv(w, division, signed, SCRATCH), h) == On(NoFlag(Put(Put(h, RAX, r.value.0), RDX, r.value.1)))
  {
    hide Wide2;
  }

  lemma PutTwice(h: Host, x: u64, y: u64, z: u64)
    requires Wide(h)
    ensures NoFlag(Put(Put(NoFlag(Put(h, RDX, x)), RAX, y), RDX, z)) == NoFlag(Put(Put(h, RAX, y), RDX, z))
    ensures NoFlag(Put(Put(Put(h, RDX, x), RAX, y), RDX, z)) == NoFlag(Put(Put(h, RAX, y), RDX, z))
  {
    assert h.reg[RDX := x][RAX := y][RDX := z] == h.reg[RAX := y][RDX := z];
  }

  lemma CoreRuns(op: PqrOp, w: Width, h: Host)
    requires Wide(h) && Halves(op, w, h.reg[RAX], h.reg[RDX], h.reg[SCRATCH]).Some?
    ensures Exec(Core(op, w), h).On? && CoreLeaves(op, w, h, Exec(Core(op, w), h).h)
  {
    hide Trunc, Signed, Wide2, One, Exec;
    var last := MulDiv(w, IsDivision(op), SignedArithmetic(op), SCRATCH);
    var r := Halves(op, w, h.reg[RAX], h.reg[RDX], h.reg[SCRATCH]).value;
    if !IsDivision(op) {
      assert Core(op, w) == [last];
      Exec1(last, h);
      MulDivRuns(w, false, SignedArithmetic(op), h);
    } else if SignedArithmetic(op) {
      assert Core(op, w) == [ExtendRaxRdx(w), last];
      Exec2(ExtendRaxRdx(w), last, h);
      var x := Trunc(w, if Signed(w, h.reg[RAX]) < 0 then -1 else 0);
      ExtendRuns(w, h);
      MulDivRuns(w, true, true, Put(h, RDX, x));
      PutTwice(h, x, r.0, r.1);
    } else {
      assert Core(op, w) == [AluReg(Xor, w, RDX, RDX), last];
      Exec2(AluReg(Xor, w, RDX, RDX), last, h);
      XorClears(w, h);
      MulDivRuns(w, true, false, NoFlag(Put(h, RDX, 0)));
      PutTwice(h, 0, r.0, r.1);
    }
  }

  lemma ExtendRuns(w: Width, h: Host)
    requires Wide(h)
    ensures One(ExtendRaxRdx(w), h) == On(Put(h, RDX, Trunc(w, if Signed(w, h.reg[RAX]) < 0 then -1 else 0)))
  {
    hide Trunc, Signed;
  }

  /**
   What the sequence promises: the destination holds `value`, and nothing else has changed but the
   scratch register.
   */
  ghost predicate Delivers(e: Effect, h: Host, dst: nat, value: u64)
    requires dst < |h.reg|
  {
    e.On? && Untouched(h, e.h, dst) && e.h.reg[dst] == value
  }

  /** Saving, computing and restoring, when the destination is RAX, RDX or neither. */
  lemma BodyOfRax(op: PqrOp, w: Width, h: Host)
    requires Wide(h) && Halves(op, w, h.reg[RAX], h.reg[RDX], h.reg[SCRATCH]).Some?
    ensures var r := Halves(op, w, h.reg[RAX], h.reg[RDX], h.reg[SCRATCH]).value;
      Delivers(Exec(Save(RAX) + Core(op, w) + Restore(op, RAX), h), h, RAX, if UsesRdx(op) then r.1 else r.0)
  {
    hide Exec, Core, Halves, One;
    var s := h.(stack := h.stack + [h.reg[RDX]]);
    assert Save(RAX) == [Push(RDX)];
    Exec1(Push(RDX), h);
    Pushes(RDX, h);
    CoreRuns(op, w, s);
    var t := Exec(Core(op, w), s).h;
    ExecAppend(Save(RAX), Core(op, w), h);
    ExecAppend(Save(RAX) + Core(op, w), Restore(op, RAX), h);
    if UsesRdx(op) {
      assert Restore(op, RAX) == [Mov(W64, RDX, RAX), Pop(RDX)];
      Exec2(Mov(W64, RDX, RAX), Pop(RDX), t);
      Moves(RDX, RAX, t);
      Pops(RDX, Put(t, RAX, t.reg[RDX]), h.stack, h.reg[RDX]);
    } else {
      assert Restore(op, RAX) == [Pop(RDX)];
      Exec1(Pop(RDX), t);
      Pops(RDX, t, h.stack, h.reg[RDX]);
    }
  }

  lemma BodyOfRdx(op: PqrOp, w: Width, h: Host)
    requires Wide(h) && Halves(op, w, h.reg[RDX], h.reg[RDX], h.reg[SCRATCH]).Some?
    ensures var r := Halves(op, w, h.reg[RDX], h.reg[RDX], h.reg[SCRATCH]).value;
      Delivers(Exec(Save(RDX) + Core(op, w) + Restore(op, RDX), h), h, RDX, if UsesRdx(op) then r.1 else r.0)
  {
    hide Trunc, Exec, Core, Halves, One, Save, Restore;
    var s := Put(h.(stack := h.stack + [h.reg[RAX]]), RAX, h.reg[RDX]);
    SaveRdx(h);
    CoreRuns(op, w, s);
    var t := Exec(Core(op, w), s).h;
    ExecAppend(Save(RDX), Core(op, w), h);
    ExecAppend(Save(RDX) + Core(op, w), Restore(op, RDX), h);
    RestoreRdx(op, t, h.stack, h.reg[RAX]);
  }

  lemma SaveRdx(h: Host)
    requires Wide(h)
    ensures Exec(Save(RDX), h) == On(Put(h.(stack := h.stack + [h.reg[RAX]]), RAX, h.reg[RDX]))
  {
    hide Exec, One;
    assert Save(RDX) == [Push(RAX), Mov(W64, RDX, RAX)];
    Exec2(Push(RAX), Mov(W64, RDX, RAX), h);
    Pushes(RAX, h);
    Moves(RDX, RAX, h.(stack := h.stack + [h.reg[RAX]]));
  }

  lemma RestoreRdx(op: PqrOp, t: Host, stack: seq<u64>, rax: u64)
    requires Wide(t) && t.stack == stack + [rax]
    ensures var e := Exec(Restore(op, RDX), t);
      && e.On? && e.h.stack == stack && |e.h.reg| == 16 && e.h.reg[RAX] == rax
      && e.h.reg[RDX] == t.reg[if UsesRdx(op) then RDX else RAX]
      && forall r :: 0 <= r < 16 && r != RAX && r != RDX ==> e.h.reg[r] == t.reg[r]
  {
    hide Exec, One;
    if UsesRdx(op) {
      assert Restore(op, RDX) == [Pop(RAX)];
      Exec1(Pop(RAX), t);
      Pops(RAX, t, stack, rax);
    } else {
      assert Restore(op, RDX) == [Mov(W64, RAX, RDX), Pop(RAX)];
      Exec2(Mov(W64, RAX, RDX), Pop(RAX), t);
      Moves(RAX, RDX, t);
      Pops(RAX, Put(t, RDX, t.reg[RAX]), stack, rax);
    }
  }

  lemma BodyOfOther(op: PqrOp, w: Width, dst: nat, h: Host)
    requires Wide(h) && Guest(dst) && dst != RAX && dst != RDX
    requires Halves(op, w, h.reg[dst], h.reg[RDX], h.reg[SCRATCH]).Some?
    ensures var r := Halves(op, w, h.reg[dst], h.reg[RDX], h.reg[SCRATCH]).value;
      Delivers(Exec(Save(dst) + Core(op, w) + Restore(op, dst), h), h, dst, if UsesRdx(op) then r.1 else r.0)
  {
    hide Exec, Core, Halves, One, Save, Restore, CoreLeaves;
    var s := Put(h.(stack := h.stack + [h.reg[RAX], h.reg[RDX]]), RAX, h.reg[dst]);
    SaveOther(dst, h);
    CoreRuns(op, w, s);
    var t := Exec(Core(op, w), s).h;
    CoreKeeps(op, w, s, t);
    ExecAppend(Save(dst), Core(op, w), h);
    ExecAppend(Save(dst) + Core(op, w), Restore(op, dst), h);
    RestoreOther(op, dst, t, h.stack, h.reg[RAX], h.reg[RDX]);
  }

  lemma CoreKeeps(op: PqrOp, w: Width, h: Host, t: Host)
    requires Wide(h) && CoreLeaves(op, w, h, t)
    ensures var r := Halves(op, w, h.reg[RAX], h.reg[RDX], h.reg[SCRATCH]);
      && r.Some? && Wide(t) && t.stack == h.stack && t.reg[RAX] == r.value.0 && t.reg[RDX] == r.value.1
      && forall k :: 0 <= k < 16 && k != RAX && k != RDX ==> t.reg[k] == h.reg[k]
  {
    hide Halves;
  }

  lemma SaveOther(dst: nat, h: Host)
    requires Wide(h) && Guest(dst) && dst != RAX && dst != RDX
    ensures Exec(Save(dst), h) == On(Put(h.(stack := h.stack + [h.reg[RAX], h.reg[RDX]]), RAX, h.reg[dst]))
  {
    hide Exec, One;
    var first := [Push(RAX), Mov(W64, dst, RAX)];
    assert Save(dst) == first + [Push(RDX)];
    ExecSnoc(first, Push(RDX), h);
    Exec2(Push(RAX), Mov(W64, dst, RAX), h);
    var s := h.(stack := h.stack + [h.reg[RAX]]);
    Pushes(RAX, h);
    Moves(dst, RAX, s);
    Pushes(RDX, Put(s, RAX, h.reg[dst]));
    Concatenates(h.stack, h.reg[RAX], h.reg[RDX]);
  }

  lemma Concatenates(s: seq<u64>, x: u64, y: u64)
    ensures s + [x] + [y] == s + [x, y]
  {
  }

  lemma RestoreOther(op: PqrOp, dst: nat, t: Host, stack: seq<u64>, rax: u64, rdx: u64)
    requires Wide(t) && Guest(dst) && dst != RAX && dst != RDX && t.stack == stack + [rax, rdx]
    ensures var e := Exec(Restore(op, dst), t);
      && e.On? && e.h.stack == stack && |e.h.reg| == 16 && e.h.reg[RAX] == rax && e.h.reg[RDX] == rdx
      && e.h.reg[dst] == t.reg[if UsesRdx(op) then RDX else RAX]
      && forall r :: 0 <= r < 16 && r != RAX && r != RDX && r != dst ==> e.h.reg[r] == t.reg[r]
  {
    hide Exec, One;
    assert t.stack == (stack + [rax]) + [rdx];
    if UsesRdx(op) {
      assert Restore(op, dst) == [Mov(W64, RDX, dst), Pop(RDX), Pop(RAX)];
      Exec3(Mov(W64, RDX, dst), Pop(RDX), Pop(RAX), t);
      var a := Put(t, dst, t.reg[RDX]);
      Moves(RDX, dst, t);
      Pops(RDX, a, stack + [rax], rdx);
      Pops(RAX, Put(a.(stack := stack + [rax]), RDX, rdx), stack, rax);
    } else {
      assert Restore(op, dst) == [Pop(RDX), Mov(W64, RAX, dst), Pop(RAX)];
      Exec3(Pop(RDX), Mov(W64, RAX, dst), Pop(RAX), t);
      var a := Put(t.(stack := stack + [rax]), RDX, rdx);
      Pops(RDX, t, stack + [rax], rdx);
      Moves(RAX, dst, a);
      Pops(RAX, Put(a, dst, a.reg[RAX]), stack, rax);
    }
  }

  lemma BodyRuns(op: PqrOp, w: Width, dst: nat, h: Host)
    requires Wide(h) && Guest(dst) && Halves(op, w, h.reg[dst], h.reg[RDX], h.reg[SCRATCH]).Some?
    ensures var r := Halves(op, w, h.reg[dst], h.reg[RDX], h.reg[SCRATCH]).value;
      Delivers(Exec(Save(dst) + Core(op, w) + Restore(op, dst), h), h, dst, if UsesRdx(op) then r.1 else r.0)
  {
    hide Exec, Core, Halves, Save, Restore, Delivers;
    if dst == RAX {
      BodyOfRax(op, w, h);
    } else if dst == RDX {
      BodyOfRdx(op, w, h);
    } else {
      BodyOfOther(op, w, dst, h);
    }
  }

  // ---------------------------------------------------------------- the guards decide

  lemma ZeroGuard(w: Width, src: nat, pc: nat, h: Host)
    requires Wide(h) && Guest(src)
    ensures var e := Exec(GuardZero(w, src, pc), h);
      && (e.On? || e.Raised?) && Untouched(h, e.h, SCRATCH) && (e.Raised? <==> Trunc(w, h.reg[src]) == 0)
      && (e.Raised? ==> e.fault == DivideByZero)
  {
    hide Trunc, Exec, One;
    var s := Put(h, SCRATCH, Trunc(W64, pc));
    LoadsImmediate(SCRATCH, pc, h);
    Tests(w, src, s);
    RaisesIfZero(DivideByZero, Flag(s, Trunc(w, h.reg[src]) == 0), Trunc(w, h.reg[src]) == 0);
    Exec3(LoadImmediate(SCRATCH, pc), Test(w, src), RaiseIfZero(DivideByZero), h);
  }

  lemma OverflowByParts(w: Width, a: u64, b: u64)
    ensures Overflows(w, a, b) <==> Trunc(w, a) == Trunc(w, Smallest(w)) && Trunc(w, -1) == Trunc(w, b)
  {
  }

  lemma SmallestFlag(w: Width, dst: nat, h: Host)
    requires Wide(h) && Guest(dst)
    ensures var e := Exec([LoadImmediate(SCRATCH, Smallest(w)), Cmp(w, dst, SCRATCH)], h);
      e.On? && Untouched(h, e.h, SCRATCH) && e.h.zero == Some(Trunc(w, h.reg[dst]) == Trunc(w, Smallest(w)))
  {
    hide Trunc, Exec, Smallest;
    Exec2(LoadImmediate(SCRATCH, Smallest(w)), Cmp(w, dst, SCRATCH), h);
    TruncOfTrunc(w, Smallest(w));
  }

  lemma TruncOfTrunc(w: Width, x: int)
    ensures Trunc(w, Trunc(W64, x)) == Trunc(w, x)
  {
    ModOfMod(x, if w == W32 then 0x1_0000_0000 else 1, Modulus(w));
  }

  /** The scratch register collects a nonzero value unless both conditions hold. */
  lemma BothFlag(w: Width, src: nat, smallest: bool, h: Host)
    requires Wide(h) && Guest(src) && h.zero == Some(smallest) && Trunc(w, h.reg[src]) != 0
    ensures var e := Exec([LoadImmediate(SCRATCH, 0), CmovNotZero(w, src, SCRATCH), CmpImm(w, src, -1),
      CmovNotZero(w, src, SCRATCH), Test(w, SCRATCH)], h);
      e.On? && Untouched(h, e.h, SCRATCH) && e.h.zero == Some(smallest && Trunc(w, -1) == Trunc(w, h.reg[src]))
  {
    hide Trunc, Exec, One;
    var x, minus := h.reg[src], Trunc(w, -1) == Trunc(w, h.reg[src]);
    var a := Put(h, SCRATCH, Trunc(W64, 0));
    LoadsImmediate(SCRATCH, 0, h);
    MovesIfNotZero(w, src, SCRATCH, a, smallest);
    var b := Put(a, SCRATCH, Trunc(w, a.reg[if smallest then SCRATCH else src]));
    ComparesImmediate(w, src, -1, b);
    var c := Flag(b, minus);
    MovesIfNotZero(w, src, SCRATCH, c, minus);
    Tests(w, SCRATCH, Put(c, SCRATCH, Trunc(w, c.reg[if minus then SCRATCH else src])));
    Exec5(LoadImmediate(SCRATCH, 0), CmovNotZero(w, src, SCRATCH), CmpImm(w, src, -1), CmovNotZero(w, src, SCRATCH),
      Test(w, SCRATCH), h);
    TruncOfZero(W64);
    TruncOfZero(w);
    TruncTwice(w, h.reg[src]);
    TruncTwice(w, Trunc(w, h.reg[src]));
  }

  lemma FinalGuard(pc: nat, h: Host)
    requires Wide(h) && h.zero.Some?
    ensures var e := Exec([LoadImmediate(SCRATCH, pc), RaiseIfZero(DivideOverflow)], h);
      && (e.On? || e.Raised?) && Untouched(h, e.h, SCRATCH) && (e.Raised? <==> h.zero.value)
      && (e.Raised? ==> e.fault == DivideOverflow)
  {
    hide Trunc, Exec;
    Exec2(LoadImmediate(SCRATCH, pc), RaiseIfZero(DivideOverflow), h);
  }

  lemma OverflowGuard(w: Width, src: nat, dst: nat, pc: nat, h: Host)
    requires Wide(h) && Guest(src) && Guest(dst) && Trunc(w, h.reg[src]) != 0
    ensures var e := Exec(GuardOverflow(w, src, dst, pc), h);
      && (e.On? || e.Raised?) && Untouched(h, e.h, SCRATCH) && (e.Raised? <==> Overflows(w, h.reg[dst], h.reg[src]))
      && (e.Raised? ==> e.fault == DivideOverflow)
  {
    hide Trunc, Exec, Overflows, Smallest;
    var first := [LoadImmediate(SCRATCH, Smallest(w)), Cmp(w, dst, SCRATCH)];
    var second := [LoadImmediate(SCRATCH, 0), CmovNotZero(w, src, SCRATCH), CmpImm(w, src, -1),
      CmovNotZero(w, src, SCRATCH), Test(w, SCRATCH)];
    var third := [LoadImmediate(SCRATCH, pc), RaiseIfZero(DivideOverflow)];
    SmallestFlag(w, dst, h);
    var s := Exec(first, h).h;
    BothFlag(w, src, s.zero.value, s);
    FinalGuard(pc, Exec(second, s).h);
    ExecAppend(first, second, h);
    ExecAppend(first + second, third, h);
    OverflowByParts(w, h.reg[dst], h.reg[src]);
  }

  lemma MinusOneGuard(w: Width, dst: nat, pc: nat, h: Host)
    requires Wide(h) && Guest(dst)
    ensures var e := Exec(GuardMinusOne(w, dst, pc), h);
      && (e.On? || e.Raised?) && Untouched(h, e.h, SCRATCH) && (e.Raised? <==> Overflows(w, h.reg[dst], Trunc(W64, -1)))
      && (e.Raised? ==> e.fault == DivideOverflow)
  {
    hide Trunc, Exec, Overflows, Smallest;
    var first := [LoadImmediate(SCRATCH, Smallest(w)), Cmp(w, dst, SCRATCH)];
    SmallestFlag(w, dst, h);
    FinalGuard(pc, Exec(first, h).h);
    ExecAppend(first, [LoadImmediate(SCRATCH, pc), RaiseIfZero(DivideOverflow)], h);
    OverflowByParts(w, h.reg[dst], Trunc(W64, -1));
    TruncOfTrunc(w, -1);
  }

  // ---------------------------------------------------------------- the whole sequence

  function SecondOperand(h: Host, src: nat, imm: Option<int>): u64 {
    if imm.Some? then Trunc(W64, imm.value) else Get(h, src)
  }

  /** What a quotient or remainder fails with, or nothing. */
  function Failure(op: PqrOp, w: Width, byRegister: bool, a: u64, b: u64): Option<Fault> {
    if IsDivision(op) && byRegister && Trunc(w, b) == 0 then Some(DivideByZero)
    else if IsSigned(op) && Overflows(w, a, b) then Some(DivideOverflow)
    else None
  }

  lemma OnlyMinusOneOverflows(w: Width, a: u64, imm: int)
    requires Fits32(imm) && Overflows(w, a, Trunc(W64, imm))
    ensures imm == -1
  {
  }

  /** The guards raise the interpreter's error, and only that. */
  lemma GuardsDecide(op: PqrOp, w: Width, src: nat, dst: nat, imm: Option<int>, pc: nat, h: Host)
    requires Wide(h) && Guest(src) && Guest(dst)
    requires imm.Some? && IsSigned(op) ==> Fits32(imm.value)
    ensures var e := Exec(Guards(op, w, src, dst, imm, pc), h);
      var f := Failure(op, w, imm.None?, h.reg[dst], SecondOperand(h, src, imm));
      (e.On? || e.Raised?) && Untouched(h, e.h, SCRATCH) && (e.On? <==> f.None?) && (e.Raised? ==> f == Some(e.fault))
  {
    hide Trunc, Exec, Overflows, GuardZero, GuardOverflow, GuardMinusOne;
    ExecNothing(h);
    if IsDivision(op) && imm.None? {
      ZeroGuard(w, src, pc, h);
      var e := Exec(GuardZero(w, src, pc), h);
      if e.On? && SignedArithmetic(op) {
        OverflowGuard(w, src, dst, pc, e.h);
        ExecAppend(GuardZero(w, src, pc), GuardOverflow(w, src, dst, pc), h);
      } else {
        ExecAppend(GuardZero(w, src, pc), if SignedArithmetic(op) then GuardOverflow(w, src, dst, pc) else [], h);
        ExecNothing(e.h);
      }
    } else if IsSigned(op) && imm.Some? {
      if imm.value == -1 {
        MinusOneGuard(w, dst, pc, h);
      } else if Overflows(w, h.reg[dst], Trunc(W64, imm.value)) {
        OnlyMinusOneOverflows(w, h.reg[dst], imm.value);
      }
    }
  }

  lemma ExecNothing(h: Host)
    ensures Exec([], h) == On(h)
  {
  }

  lemma OperandLoads(src: nat, imm: Option<int>, key: int, sanitize: bool, h: Host)
    requires Wide(h) && Guest(src)
    ensures var e := Exec(LoadOperand(src, imm, key, sanitize), h);
      e.On? && Untouched(h, e.h, SCRATCH) && e.h.reg[SCRATCH] == SecondOperand(h, src, imm)
  {
    hide Trunc, Exec, SanitizedLoad;
    if imm.None? {
      Exec1(Mov(W64, src, SCRATCH), h);
      TruncIsIdentity(h.reg[src]);
    } else if sanitize {
      SanitizedLoadLoads(SCRATCH, imm.value, key, h);
    } else {
      Exec1(LoadImmediate(SCRATCH, imm.value), h);
    }
  }

  /**
   The versions in which an operation is compiled this way: all with the new arithmetic, unsigned
   division otherwise.
   */
  predicate CompiledIn(v: Version, op: PqrOp, w: Width) {
    if EnablePqr(v) then (op == Uhmul || op == Shmul ==> w == W64) else op == Udiv || op == Urem
  }

  /**
   For every operand, key and register assignment, the sequence leaves the interpreter's result in the destination or
   raises the interpreter's error, and keeps every other guest register and the stack.
   */
  lemma ProductIsEmitted(v: Version, op: PqrOp, w: Width, src: nat, dst: nat, imm: Option<int>, key: int,
                         sanitize: bool, pc: nat, h: Host)
    requires Wide(h) && Guest(src) && Guest(dst) && CompiledIn(v, op, w)
    requires imm.Some? && IsSigned(op) ==> Fits32(imm.value)
    requires imm.Some? && IsDivision(op) ==> Trunc(w, Trunc(W64, imm.value)) != 0
    ensures var e := Exec(EmitProduct(v, op, w, src, dst, imm, key, sanitize, pc), h);
      match ProductResult(op, w, if imm.Some? then Imm else Reg, h.reg[dst], SecondOperand(h, src, imm))
      case Ok(value) => Delivers(e, h, dst, value)
      case Err(fault) => e.Raised? && e.fault == fault && Untouched(h, e.h, SCRATCH)
  {
    hide Trunc, Exec, Overflows, Guards, LoadOperand, Save, Core, Restore, Pqr, Guest, EmitProduct;
    var guards := Guards(op, w, src, dst, imm, pc);
    var rest := LoadOperand(src, imm, key, sanitize) + (Save(dst) + Core(op, w) + Restore(op, dst));
    EmitSplits(v, op, w, src, dst, imm, key, sanitize, pc);
    GuardsDecide(op, w, src, dst, imm, pc, h);
    ExecAppend(guards, rest, h);
    var e := Exec(guards, h);
    if e.On? {
      GuestIsKept(h, e.h, src);
      GuestIsKept(h, e.h, dst);
      BehindGuards(op, w, src, dst, imm, key, sanitize, e.h);
    }
  }

  lemma EmitSplits(v: Version, op: PqrOp, w: Width, src: nat, dst: nat, imm: Option<int>, key: int, sanitize: bool,
                   pc: nat)
    requires CompiledIn(v, op, w)
    ensures EmitProduct(v, op, w, src, dst, imm, key, sanitize, pc)
         == Guards(op, w, src, dst, imm, pc)
           + (LoadOperand(src, imm, key, sanitize) + (Save(dst) + Core(op, w) + Restore(op, dst)))
  {
    hide Guards, LoadOperand, Save, Core, Restore;
    assert Tail(v, op, w, dst) == [];
  }

  lemma GuestIsKept(h: Host, t: Host, r: nat)
    requires Wide(h) && Guest(r) && Untouched(h, t, SCRATCH)
    ensures Wide(t) && t.reg[r] == h.reg[r]
  {
  }

  lemma BehindGuards(op: PqrOp, w: Width, src: nat, dst: nat, imm: Option<int>, key: int, sanitize: bool, h: Host)
    requires Wide(h) && Guest(src) && Guest(dst) && (op == Uhmul || op == Shmul ==> w == W64)
    requires IsDivision(op) ==> Trunc(w, SecondOperand(h, src, imm)) != 0
    requires IsSigned(op) ==> !Overflows(w, h.reg[dst], SecondOperand(h, src, imm))
    ensures Delivers(Exec(LoadOperand(src, imm, key, sanitize) + (Save(dst) + Core(op, w) + Restore(op, dst)), h),
                     h, dst, Pqr(op, w, h.reg[dst], SecondOperand(h, src, imm)))
  {
    hide Trunc, Exec, Overflows, LoadOperand, Save, Core, Restore, Pqr, Halves, SecondOperand;
    var load := LoadOperand(src, imm, key, sanitize);
    var body := Save(dst) + Core(op, w) + Restore(op, dst);
    OperandLoads(src, imm, key, sanitize, h);
    ExecAppend(load, body, h);
    var t := Exec(load, h).h;
    CoreComputes(op, w, t.reg[dst], t.reg[RDX], t.reg[SCRATCH]);
    BodyRuns(op, w, dst, t);
  }

  // ---------------------------------------------------------------- from the instruction to its code

  /** The new unsigned operations take their immediate without its sign. */
  function JitImmediate(v: Version, op: PqrOp, imm: int): int {
    if EnablePqr(v) && !SignedArithmetic(op) then Trunc(W32, imm) else imm
  }

  lemma SourceOfProduct(v: Version, opc: byte)
    requires Decode(v, opc).Product? && Decode(v, opc).source != Reg
    ensures var p := Decode(v, opc);
      if EnablePqr(v) && !SignedArithmetic(p.pqr) then p.source == LowImm || (p.w == W32 && IsDivision(p.pqr))
        else p.source == Imm
  {
  }

  lemma OnlyLowBits(op: PqrOp, a: u64, b: u64, c: u64)
    requires (op == Udiv || op == Urem) && Trunc(W32, b) == Trunc(W32, c) != 0
    ensures ProductResult(op, W32, Imm, a, b) == ProductResult(op, W32, Imm, a, c)
  {
    hide Trunc;
  }

  /** The immediate that the compiler passes on gives the interpreter's result. */
  lemma ImmediateAgrees(v: Version, opc: byte, imm: int, a: u64)
    requires Decode(v, opc).Product? && Decode(v, opc).source != Reg
    requires var p := Decode(v, opc); IsDivision(p.pqr) ==> Trunc(p.w, Operand(p.source, imm, 0)) != 0
    ensures var p := Decode(v, opc); var b := Trunc(W64, JitImmediate(v, p.pqr, imm));
      && (IsDivision(p.pqr) ==> Trunc(p.w, b) != 0)
      && ProductResult(p.pqr, p.w, Imm, a, b) == ProductResult(p.pqr, p.w, p.source, a, Operand(p.source, imm, 0))
  {
    hide Decode, Trunc, Pqr, Overflows;
    SourceOfProduct(v, opc);
    var p := Decode(v, opc);
    TruncIsIdentity(Trunc(W32, imm));
    if EnablePqr(v) && !SignedArithmetic(p.pqr) && p.source == Imm {
      TruncOfTrunc(W32, imm);
      TruncTwice(W32, imm);
      OnlyLowBits(p.pqr, a, Trunc(W32, imm), Trunc(W64, imm));
    }
  }

  /** A compiled product, quotient or remainder instruction does what the interpreter does with it. */
  lemma CompiledProduct(v: Version, opc: byte, imm: int, src: nat, dst: nat, key: int, sanitize: bool, pc: nat, h: Host)
    requires Wide(h) && Guest(src) && Guest(dst) && Fits32(imm)
    requires Decode(v, opc).Product? && CompiledIn(v, Decode(v, opc).pqr, Decode(v, opc).w)
    requires var p := Decode(v, opc);
      IsDivision(p.pqr) && p.source != Reg ==> Trunc(p.w, Operand(p.source, imm, 0)) != 0
    ensures var p := Decode(v, opc);
      var constant := if p.source == Reg then None else Some(JitImmediate(v, p.pqr, imm));
      var e := Exec(EmitProduct(v, p.pqr, p.w, src, dst, constant, key, sanitize, pc), h);
      match Compute(v, p, imm, h.reg[dst], Operand(p.source, imm, h.reg[src]))
      case Ok(value) => Delivers(e, h, dst, value)
      case Err(fault) => e.Raised? && e.fault == fault && Untouched(h, e.h, SCRATCH)
  {
    hide Decode, Trunc, Pqr, Overflows, Exec, EmitProduct, ProductResult, Delivers, CompiledIn;
    var p := Decode(v, opc);
    if p.source == Reg {
      ProductIsEmitted(v, p.pqr, p.w, src, dst, None, key, sanitize, pc, h);
    } else {
      ImmediateAgrees(v, opc, imm, h.reg[dst]);
      ProductIsEmitted(v, p.pqr, p.w, src, dst, Some(JitImmediate(v, p.pqr, imm)), key, sanitize, pc, h);
    }
  }
}
