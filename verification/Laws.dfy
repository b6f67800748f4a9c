/** What the arithmetic of the instruction set means, as bits and as integers, apart from how it is computed. */
module Laws {
  import opened Words
  import opened Arithmetic

  // ---------------------------------------------------------------- bits and congruence

  /** The bit with number `k` of an integer in two's complement. */
  ghost predicate Bit(x: int, k: nat) {
    (x / Pow2(k)) % 2 == 1
  }

  /** The byte with number `k`, the lowest first. */
  ghost function Byte(x: int, k: nat): int {
    (x / Pow2(8 * k)) % 256
  }

  /** The integers agree in their low bits. */
  ghost predicate Agree(w: Width, x: int, y: int) {
    (x - y) % Pow2(Bits(w)) == 0
  }

  ghost predicate Fits(w: Width, x: int) {
    0 <= x < Pow2(Bits(w))
  }

  /** The signed number of a width that agrees with an integer. */
  ghost predicate IsSignedValue(w: Width, x: int, s: int) {
    Agree(w, x, s) && 0 - Pow2(Bits(w) - 1) <= s < Pow2(Bits(w) - 1)
  }

  lemma PowersOfWidths(w: Width)
    ensures Pow2(Bits(w)) == Modulus(w) && 2 * Pow2(Bits(w) - 1) == Modulus(w)
  {
    hide Pow2;
    Pow2Is2();
    Pow2Adds(1, 1);
    Pow2Adds(2, 2);
    Pow2Adds(4, 4);
    Pow2Adds(8, 8);
    Pow2Adds(16, 16);
    Pow2Adds(32, 32);
    Pow2Adds(1, Bits(w) - 1);
  }

  /** Truncation keeps the low bits and nothing else. */
  lemma TruncLaw(w: Width, x: int)
    ensures Agree(w, Trunc(w, x), x) && Fits(w, Trunc(w, x))
  {
    hide Pow2;
    PowersOfWidths(w);
    var m := Modulus(w);
    assert Trunc(w, x) - x == (-(x / m)) * m + 0;
    DivModUnique(m, -(x / m), 0);
  }

  lemma SignedLaw(w: Width, x: int)
    ensures IsSignedValue(w, x, Signed(w, x))
  {
    hide Pow2;
    PowersOfWidths(w);
    var m := Modulus(w);
    var k := if 2 * Trunc(w, x) < m then x / m else x / m + 1;
    assert x - Signed(w, x) == k * m + 0;
    DivModUnique(m, k, 0);
  }

  /** At most one signed number of a width agrees with an integer. */
  lemma SignedIsUnique(w: Width, x: int, s: int)
    requires IsSignedValue(w, x, s)
    ensures s == Signed(w, x)
  {
    hide Pow2, Signed;
    SignedLaw(w, x);
    PowersOfWidths(w);
    var m, t := Modulus(w), Signed(w, x);
    var j, k := (x - s) / m, (x - t) / m;
    assert x - s == j * m && x - t == k * m;
    assert t - s == (j - k) * m;
    MultipleIsLarge(j - k, m);
  }

  // ---------------------------------------------------------------- shifting integers

  /** Dividing twice is dividing by the product, rounding down. */
  lemma DivideTwice(x: int, a: nat, b: nat)
    requires a > 0 && b > 0
    ensures a * b > 0 && (x / a) / b == x / (a * b)
  {
    var q, r := (x / a) / b, (x / a) % b;
    assert x / a == q * b + r;
    assert x == (x / a) * a + x % a;
    assert (q * b + r) * a == q * (a * b) + r * a;
    Monotone(r, b - 1, a);
    assert (b - 1) * a + a == a * b;
    DivModUnique(a * b, q, r * a + x % a);
  }

  lemma ShiftTwice(x: int, m: nat, n: nat)
    ensures (x / Pow2(m)) / Pow2(n) == x / Pow2(m + n)
  {
    hide Pow2;
    Pow2Adds(m, n);
    DivideTwice(x, Pow2(m), Pow2(n));
  }

  /** Adding a multiple of a power of two does not reach the bits below it. */
  lemma LowBitsStay(x: int, q: int, n: nat, k: nat)
    requires k < n
    ensures Bit(q * Pow2(n) + x, k) == Bit(x, k)
  {
    hide Pow2;
    Pow2Adds(k, n - k);
    Pow2Step(n - k);
    var p, h := Pow2(k), Pow2(n - k - 1);
    Regroup(q, p, h);
    EvenMultiple(x, q * h, p);
  }

  lemma Regroup(q: int, p: int, h: int)
    ensures q * (p * (2 * h)) == 2 * (q * h) * p
  {
    assert q * (p * (2 * h)) == (q * (2 * h)) * p;
    assert q * (2 * h) == 2 * (q * h);
  }

  lemma EvenMultiple(x: int, d: int, p: nat)
    requires p > 0
    ensures ((2 * d * p + x) / p) % 2 == (x / p) % 2
  {
    var c, r := x / p, x % p;
    assert x == c * p + r;
    assert (2 * d + c) * p == 2 * d * p + c * p;
    DivModUnique(p, 2 * d + c, r);
  }

  lemma AgreeInBits(w: Width, x: int, y: int, k: nat)
    requires Agree(w, x, y) && k < Bits(w)
    ensures Bit(x, k) == Bit(y, k)
  {
    hide Pow2, Bit;
    var m := Pow2(Bits(w));
    assert x - y == ((x - y) / m) * m;
    LowBitsStay(y, (x - y) / m, Bits(w), k);
  }

  /** A number that fits has no bits beyond its width. */
  lemma NoHighBits(w: Width, x: int, k: nat)
    requires Fits(w, x) && k >= Bits(w)
    ensures !Bit(x, k)
  {
    hide Pow2;
    Pow2Grows(Bits(w), k);
    ModSmall(x, Pow2(k));
  }

  lemma TruncBit(w: Width, x: int, k: nat)
    ensures Bit(Trunc(w, x), k) == (k < Bits(w) && Bit(x, k))
  {
    hide Pow2, Bit, Trunc;
    TruncLaw(w, x);
    if k < Bits(w) {
      AgreeInBits(w, Trunc(w, x), x, k);
    } else {
      NoHighBits(w, Trunc(w, x), k);
    }
  }

  /** The top bit of a width is its sign. */
  lemma SignBit(w: Width, x: int)
    ensures Bit(x, Bits(w) - 1) == (Signed(w, x) < 0)
  {
    hide Pow2, Signed;
    SignedLaw(w, x);
    AgreeInBits(w, x, Signed(w, x), Bits(w) - 1);
    var p, s := Pow2(Bits(w) - 1), Signed(w, x);
    if s < 0 {
      assert s == (-1) * p + (s + p);
      DivModUnique(p, -1, s + p);
    } else {
      ModSmall(s, p);
    }
  }

  // ---------------------------------------------------------------- the bit operations

  lemma BitStep(x: nat, k: nat)
    requires k > 0
    ensures Bit(x, k) == Bit(x / 2, k - 1)
  {
    hide Pow2;
    HalveMod(x, k - 1);
  }

  lemma LowestBit(x: int)
    ensures Bit(x, 0) == (x % 2 == 1)
  {
    Pow2Zero();
  }

  lemma BitsOfSum(h: nat, low: bool, k: nat)
    ensures Bit(2 * h + (if low then 1 else 0), k) == (if k == 0 then low else Bit(h, k - 1))
  {
    hide Bit;
    var x := 2 * h + (if low then 1 else 0);
    LowestBit(x);
    if k > 0 {
      BitStep(x, k);
    }
  }

  lemma ZeroBit(k: nat)
    ensures !Bit(0, k)
  {
    hide Pow2;
    DivModUnique(Pow2(k), 0, 0);
  }

  lemma {:induction false} AndBit(a: nat, b: nat, k: nat)
    ensures Bit(BitAnd(a, b), k) == (Bit(a, k) && Bit(b, k))
    decreases k
  {
    hide Bit;
    ZeroBit(k);
    if a != 0 && b != 0 {
      BitsOfSum(BitAnd(a / 2, b / 2), a % 2 == 1 && b % 2 == 1, k);
      if k == 0 {
        LowestBit(a);
        LowestBit(b);
      } else {
        AndBit(a / 2, b / 2, k - 1);
        BitStep(a, k);
        BitStep(b, k);
      }
    }
  }

  lemma {:induction false} OrBit(a: nat, b: nat, k: nat)
    ensures Bit(BitOr(a, b), k) == (Bit(a, k) || Bit(b, k))
    decreases k
  {
    hide Bit;
    ZeroBit(k);
    if a != 0 && b != 0 {
      BitsOfSum(BitOr(a / 2, b / 2), a % 2 == 1 || b % 2 == 1, k);
      if k == 0 {
        LowestBit(a);
        LowestBit(b);
      } else {
        OrBit(a / 2, b / 2, k - 1);
        BitStep(a, k);
        BitStep(b, k);
      }
    }
  }

  lemma {:induction false} XorBit(a: nat, b: nat, k: nat)
    ensures Bit(BitXor(a, b), k) == (Bit(a, k) != Bit(b, k))
    decreases k
  {
    hide Bit;
    ZeroBit(k);
    if a != 0 && b != 0 {
      BitsOfSum(BitXor(a / 2, b / 2), a % 2 != b % 2, k);
      if k == 0 {
        LowestBit(a);
        LowestBit(b);
      } else {
        XorBit(a / 2, b / 2, k - 1);
        BitStep(a, k);
        BitStep(b, k);
      }
    }
  }

  /** Every positive number has a bit. */
  lemma {:induction false} SomeBit(x: nat) returns (k: nat)
    requires x > 0
    ensures Bit(x, k)
    decreases x
  {
    hide Bit;
    if x % 2 == 1 {
      k := 0;
      LowestBit(x);
    } else {
      var j := SomeBit(x / 2);
      k := j + 1;
      BitStep(x, k);
    }
  }

  // ---------------------------------------------------------------- sums, moves and bitwise operations

  /** The 64-bit result of 32-bit sums and products is sign extended, or else zero extended if `plain`. */
  ghost predicate IsResult(w: Width, plain: bool, x: int, r: u64) {
    Agree(w, r, x) && if w == W32 && !plain then r < Pow2(31) || r >= Pow2(64) - Pow2(31) else Fits(w, r)
  }

  ghost predicate AluMeans(op: AluOp, w: Width, plain: bool, a: u64, b: u64, r: u64) {
    match op
    case Add => IsResult(w, plain, a + b, r)
    case Sub => IsResult(w, plain, a - b, r)
    case SubFrom => IsResult(w, plain, b - a, r)
    case Mul => IsResult(w, plain, a * b, r)
    case Or => Fits(w, r) && forall k: nat :: k < Bits(w) ==> Bit(r, k) == (Bit(a, k) || Bit(b, k))
    case And => Fits(w, r) && forall k: nat :: k < Bits(w) ==> Bit(r, k) == (Bit(a, k) && Bit(b, k))
    case Xor => Fits(w, r) && forall k: nat :: k < Bits(w) ==> Bit(r, k) == (Bit(a, k) != Bit(b, k))
    case Neg => Fits(w, r) && Agree(w, r + a, 0)
    case Move => Fits(w, r) && Agree(w, r, b)
    case MoveSigned => IsResult(W32, false, b, r)
    case HighOr => forall k: nat :: k < 64 ==> Bit(r, k) == (Bit(a, k) || (k >= 32 && Bit(b, k - 32)))
  }

  lemma ExtendLaw(w: Width, plain: bool, x: int)
    ensures IsResult(w, plain, x, Extend(w, plain, x))
  {
    hide Pow2, Trunc, SignExtend32;
    TruncLaw(w, x);
    if w == W32 && !plain {
      SignExtendLaw(x);
    }
  }

  lemma SignExtendLaw(x: int)
    ensures IsResult(W32, false, x, SignExtend32(x))
  {
    hide Pow2;
    PowersOfWidths(W32);
    PowersOfWidths(W64);
    var m := Modulus(W32);
    var s := Signed(W32, x);
    SignedLaw(W32, x);
    TruncLaw(W64, s);
    var j, k := (x - s) / m, (Trunc(W64, s) - s) / WORD;
    assert SignExtend32(x) - x == (k * m - j) * m + 0;
    DivModUnique(m, k * m - j, 0);
  }

  lemma NegLaw(w: Width, a: u64)
    ensures Fits(w, Opposite(w, a)) && Agree(w, Opposite(w, a) + a, 0)
  {
    hide Pow2;
    var x: int := a;
    TruncLaw(w, -x);
  }

  lemma HighBit(a: u64, b: u64, k: nat)
    ensures Bit(Alu(HighOr, W64, true, a, b), k) == (k < 64 && (Bit(a, k) || (k >= 32 && Bit(b, k - 32))))
  {
    hide Pow2, Bit, Trunc;
    var high := Trunc(W64, b * 0x1_0000_0000);
    TruncBit(W64, BitOr(a, high), k);
    OrBit(a, high, k);
    TruncBit(W64, b * 0x1_0000_0000, k);
    PowersOfWidths(W32);
    ShiftedBit(b, 32, k);
  }

  /** Multiplying by a power of two moves the bits up. */
  lemma ShiftedBit(x: int, n: nat, k: nat)
    ensures Bit(x * Pow2(n), k) == (k >= n && Bit(x, k - n))
  {
    if k >= n {
      ShiftTwice(x * Pow2(n), n, k - n);
      DivModUnique(Pow2(n), x, 0);
    } else {
      hide Bit;
      LowBitsStay(0, x, n, k);
      ZeroBit(k);
    }
  }

  lemma LogicLaw(op: AluOp, w: Width, plain: bool, a: u64, b: u64)
    requires op == Or || op == And || op == Xor
    ensures AluMeans(op, w, plain, a, b, Alu(op, w, plain, a, b))
  {
    hide Pow2, Bit, Trunc;
    var x, y := Trunc(w, a), Trunc(w, b);
    var z := if op == Or then BitOr(x, y) else if op == And then BitAnd(x, y) else BitXor(x, y);
    TruncLaw(w, z);
    forall k: nat | k < Bits(w)
      ensures Bit(Trunc(w, z), k) == Bit(z, k) && Bit(x, k) == Bit(a, k) && Bit(y, k) == Bit(b, k)
      ensures Bit(z, k) == (if op == Or then Bit(x, k) || Bit(y, k) else if op == And then Bit(x, k) && Bit(y, k)
                            else Bit(x, k) != Bit(y, k))
    {
      TruncBit(w, z, k);
      TruncBit(w, a, k);
      TruncBit(w, b, k);
      OrBit(x, y, k);
      AndBit(x, y, k);
      XorBit(x, y, k);
    }
  }

  /** Every operation on a register and an operand computes what it is named after. */
  lemma AluLaw(op: AluOp, w: Width, plain: bool, a: u64, b: u64)
    requires op == HighOr ==> w == W64
    ensures AluMeans(op, w, plain, a, b, Alu(op, w, plain, a, b))
  {
    hide Pow2, Bit, Trunc, Extend, Opposite, SignExtend32, Fits, Agree;
    match op
    case Add => ExtendLaw(w, plain, a + b);
    case Sub => ExtendLaw(w, plain, a - b);
    case SubFrom => ExtendLaw(w, plain, b - a);
    case Mul => ExtendLaw(w, plain, a * b);
    case Neg => NegLaw(w, a);
    case Move => TruncLaw(w, b);
    case MoveSigned => SignExtendLaw(b);
    case HighOr =>
      forall k: nat | k < 64
        ensures Bit(Alu(op, w, plain, a, b), k) == (Bit(a, k) || (k >= 32 && Bit(b, k - 32)))
      {
        HighBit(a, b, k);
      }
    case _ => LogicLaw(op, w, plain, a, b);
  }

  // ---------------------------------------------------------------- shifts and byte swaps

  /** Where a shift by `n` takes each bit from; bits from outside are zero, or the sign. */
  ghost predicate ShiftMeans(op: ShiftOp, w: Width, a: u64, n: nat, r: u64) {
    && Fits(w, r)
    && forall k: nat :: k < Bits(w) ==>
      (Bit(r, k) <==>
        match op
        case Lsh => k >= n && Bit(a, k - n)
        case Rsh => k + n < Bits(w) && Bit(a, k + n)
        case Arsh => Bit(a, if k + n < Bits(w) then k + n else Bits(w) - 1))
  }

  lemma ArithmeticShift(w: Width, a: int, n: nat, k: nat)
    requires k < Bits(w)
    ensures Bit(Signed(w, a) / Pow2(n), k) == Bit(a, if k + n < Bits(w) then k + n else Bits(w) - 1)
  {
    hide Pow2, Signed;
    var s := Signed(w, a);
    SignedLaw(w, a);
    ShiftTwice(s, n, k);
    if k + n < Bits(w) {
      AgreeInBits(w, a, s, k + n);
    } else {
      SignBit(w, a);
      Pow2Grows(Bits(w) - 1, k + n);
      if s < 0 {
        assert s == (-1) * Pow2(n + k) + (s + Pow2(n + k));
        DivModUnique(Pow2(n + k), -1, s + Pow2(n + k));
      } else {
        ModSmall(s, Pow2(n + k));
      }
    }
  }

  lemma LogicalShift(w: Width, a: int, n: nat, k: nat)
    ensures Bit(Trunc(w, a) / Pow2(n), k) == (k + n < Bits(w) && Bit(a, k + n))
  {
    hide Pow2, Trunc;
    ShiftTwice(Trunc(w, a), n, k);
    TruncBit(w, a, k + n);
  }

  lemma ShiftLaw(op: ShiftOp, w: Width, a: u64, amount: u64)
    ensures ShiftMeans(op, w, a, amount % Bits(w), Shift(op, w, a, amount))
  {
    hide Pow2, Bit, Trunc, Signed;
    var n := amount % Bits(w);
    var x := match op case Lsh => a * Pow2(n) case Rsh => Trunc(w, a) / Pow2(n) case Arsh => Signed(w, a) / Pow2(n);
    TruncLaw(w, x);
    forall k: nat | k < Bits(w)
      ensures Bit(Shift(op, w, a, amount), k) == Bit(x, k)
      ensures op == Lsh ==> Bit(x, k) == (k >= n && Bit(a, k - n))
      ensures op == Rsh ==> Bit(x, k) == (k + n < Bits(w) && Bit(a, k + n))
      ensures op == Arsh ==> Bit(x, k) == Bit(a, if k + n < Bits(w) then k + n else Bits(w) - 1)
    {
      TruncBit(w, x, k);
      ShiftedBit(a, n, k);
      LogicalShift(w, a, n, k);
      ArithmeticShift(w, a, n, k);
    }
  }

  /** A byte moves with everything above it. */
  lemma ByteStep(x: nat, k: nat)
    requires k > 0
    ensures Byte(x, k) == Byte(x / 256, k - 1)
  {
    hide Pow2;
    PowerOfByte();
    ShiftTwice(x, 8, 8 * (k - 1));
  }

  lemma PowerOfByte()
    ensures Pow2(8) == 256 && Pow2(0) == 1
  {
    hide Pow2;
    Pow2Zero();
    Pow2Is2();
    Pow2Adds(1, 1);
    Pow2Adds(2, 2);
    Pow2Adds(4, 4);
  }

  /** The byte on top of the others, and the bytes below it. */
  lemma TopByte(top: nat, x: nat, n: nat, k: nat)
    requires top < 256 && x < Pow2(8 * n) && k <= n
    ensures Byte(top * Pow2(8 * n) + x, k) == if k == n then top else Byte(x, k)
  {
    hide Pow2;
    if k == n {
      DivModUnique(Pow2(8 * n), top, x);
    } else {
      BytePowers(n, k);
      BelowTop(top, x, Pow2(8 * k), Pow2(8 * (n - k) - 8));
    }
  }

  lemma BytePowers(n: nat, k: nat)
    requires k < n
    ensures Pow2(8 * n) == Pow2(8 * k) * (256 * Pow2(8 * (n - k) - 8))
  {
    hide Pow2;
    PowerOfByte();
    Pow2Adds(8 * k, 8 * (n - k));
    Pow2Adds(8, 8 * (n - k) - 8);
  }

  lemma TopFits(top: nat, x: nat, n: nat)
    requires top < 256 && x < Pow2(8 * n)
    ensures top * Pow2(8 * n) + x < Pow2(8 * n + 8)
  {
    hide Pow2;
    PowerOfByte();
    Pow2Adds(8 * n, 8);
    Monotone(top, 255, Pow2(8 * n));
  }

  lemma BelowTop(top: nat, x: nat, p: nat, h: nat)
    requires p > 0
    ensures ((top * (p * (256 * h)) + x) / p) % 256 == (x / p) % 256
  {
    RegroupBytes(top, p, h);
    ByteMultiple(x, top * h, p);
  }

  lemma RegroupBytes(q: int, p: int, h: int)
    ensures q * (p * (256 * h)) == 256 * (q * h) * p
  {
    assert q * (p * (256 * h)) == (q * (256 * h)) * p;
    assert q * (256 * h) == 256 * (q * h);
  }

  lemma ByteMultiple(x: int, d: int, p: nat)
    requires p > 0
    ensures ((256 * d * p + x) / p) % 256 == (x / p) % 256
  {
    var c, r := x / p, x % p;
    assert x == c * p + r;
    assert (256 * d + c) * p == 256 * d * p + c * p;
    DivModUnique(p, 256 * d + c, r);
  }

  /** A byte swap turns the order of the bytes around and fits into as many. */
  lemma {:induction false} SwapLaw(x: nat, n: nat, k: nat)
    ensures SwapBytes(x, n) < Pow2(8 * n)
    ensures k < n ==> Byte(SwapBytes(x, n), k) == Byte(x, n - 1 - k)
    decreases n
  {
    hide Pow2, Byte;
    if n > 0 {
      SwapLaw(x / 256, n - 1, k);
      var rest := SwapBytes(x / 256, n - 1);
      TopFits(x % 256, rest, n - 1);
      if k < n {
        TopByte(x % 256, rest, n - 1, k);
      }
      if k == n - 1 {
        LowestByte(x);
      } else if k < n {
        ByteStep(x, n - 1 - k);
      }
    } else {
      PowerOfByte();
    }
  }

  lemma LowestByte(x: int)
    ensures Byte(x, 0) == x % 256
  {
    PowerOfByte();
  }

  // ---------------------------------------------------------------- products, quotients and remainders

  /** Division that truncates toward zero: the remainder is small and has the sign of the dividend. */
  ghost predicate Divides(a: int, b: int, q: int, r: int) {
    a == q * b + r && Abs(r) < Abs(b) && (r == 0 || (r < 0) == (a < 0))
  }

  lemma DivisionLaw(a: int, b: int)
    requires b != 0
    ensures Divides(a, b, Quotient(a, b), Remainder(a, b))
  {
    var m, n := Abs(a), Abs(b);
    var q, r := m / n, m % n;
    assert m == q * n + r;
    if b < 0 {
      assert q * n == (-q) * b;
    }
  }

  /** The law determines the quotient and the remainder. */
  lemma DivisionIsUnique(a: int, b: int, q: int, r: int)
    requires b != 0 && Divides(a, b, q, r)
    ensures q == Quotient(a, b) && r == Remainder(a, b)
  {
    hide Quotient, Remainder;
    DivisionLaw(a, b);
    var x, y := Quotient(a, b), Remainder(a, b);
    assert (q - x) * b == q * b - x * b;
    SmallMultiple(q - x, b, y - r);
  }

  lemma SmallMultiple(d: int, b: int, n: int)
    requires d * b == n && Abs(n) < Abs(b)
    ensures d == 0 && n == 0
  {
    var e := if b > 0 then d else -d;
    assert e * Abs(b) == d * b;
    MultipleIsLarge(e, Abs(b));
  }

  lemma DivisionShrinks(n: nat, d: nat)
    requires d > 0
    ensures n / d <= n && (d >= 2 ==> 2 * (n / d) <= n) && (d == 1 ==> n / d == n)
  {
    var q := n / d;
    assert n == q * d + n % d;
    Grows(q, d);
  }

  lemma Grows(q: nat, d: nat)
    requires d > 0
    ensures q * d >= q && (d >= 2 ==> q * d >= 2 * q)
  {
    assert q * (d - 1) >= 0;
    assert q * d == q + q * (d - 1);
    if d >= 2 {
      assert q * (d - 2) >= 0;
      assert q * d == 2 * q + q * (d - 2);
    }
  }

  lemma QuotientSize(x: int, y: int) returns (q: int)
    requires y != 0
    ensures q >= 0 && q == Abs(x) / Abs(y) && Quotient(x, y) == if (x >= 0) == (y > 0) then q else -q
  {
    q := Abs(x) / Abs(y);
  }

  lemma QuotientBound(x: int, y: int, m: int)
    requires y != 0 && 0 - m <= 2 * x < m && !(2 * x == 0 - m && y == -1)
    ensures 0 - m <= 2 * Quotient(x, y) < m
  {
    hide Quotient;
    var q := QuotientSize(x, y);
    DivisionShrinks(Abs(x), Abs(y));
  }

  ghost predicate PqrMeans(op: PqrOp, w: Width, a: u64, b: u64, r: u64) {
    match op
    case Lmul => Fits(w, r) && Agree(w, r, a * b)
    case Uhmul => r * WORD <= a * b < r * WORD + WORD
    case Shmul => Signed(W64, r) * WORD <= Signed(W64, a) * Signed(W64, b) < Signed(W64, r) * WORD + WORD
    case Udiv => exists m :: Divides(Trunc(w, a), Trunc(w, b), r, m)
    case Urem => exists q :: Divides(Trunc(w, a), Trunc(w, b), q, r)
    case Sdiv => Fits(w, r) && exists m :: Divides(Signed(w, a), Signed(w, b), Signed(w, r), m)
    case Srem => Fits(w, r) && exists q :: Divides(Signed(w, a), Signed(w, b), q, Signed(w, r))
  }

  /** A signed number of a width survives truncation. */
  lemma SignedOfTrunc(w: Width, s: int)
    requires 0 - Modulus(w) <= 2 * s < Modulus(w)
    ensures Signed(w, Trunc(w, s)) == s && Fits(w, Trunc(w, s))
  {
    hide Pow2, Signed, Trunc;
    TruncLaw(w, s);
    PowersOfWidths(w);
    SignedIsUnique(w, Trunc(w, s), s);
  }

  lemma TruncRange(w: Width, x: int)
    ensures 0 <= Trunc(w, x) < Modulus(w) <= WORD && 0 - Modulus(w) <= 2 * Signed(w, x) < Modulus(w)
    ensures Signed(w, x) == 0 <==> Trunc(w, x) == 0
    ensures 2 * (Modulus(w) / 2) == Modulus(w)
  {
  }

  lemma UnsignedDivisionLaw(w: Width, a: u64, b: u64)
    requires Trunc(w, b) != 0
    ensures PqrMeans(Udiv, w, a, b, Pqr(Udiv, w, a, b)) && PqrMeans(Urem, w, a, b, Pqr(Urem, w, a, b))
  {
    TruncRange(w, a);
    TruncRange(w, b);
    var x, y := Trunc(w, a), Trunc(w, b);
    hide Trunc, Modulus, Signed, Divides;
    NaturalDivision(x, y);
    TruncOfSmall(x / y);
    TruncOfSmall(x % y);
  }

  lemma NaturalDivision(x: nat, y: nat)
    requires y > 0
    ensures Divides(x, y, x / y, x % y) && 0 <= x / y <= x && 0 <= x % y < y
  {
    DivisionShrinks(x, y);
    QuotientIsNat(x, y);
    assert x == (x / y) * y + x % y;
  }

  lemma TruncOfSmall(x: int)
    requires 0 <= x < WORD
    ensures Trunc(W64, x) == x
  {
  }

  lemma SignedDivisionLaw(w: Width, a: u64, b: u64)
    requires Trunc(w, b) != 0 && !Overflows(w, a, b)
    ensures PqrMeans(Sdiv, w, a, b, Pqr(Sdiv, w, a, b)) && PqrMeans(Srem, w, a, b, Pqr(Srem, w, a, b))
  {
    TruncRange(w, a);
    TruncRange(w, b);
    var x, y := Signed(w, a), Signed(w, b);
    assert !(2 * x == 0 - Modulus(w) && y == -1);
    hide Trunc, Signed, Modulus, Quotient, Remainder;
    DivisionLaw(x, y);
    QuotientBound(x, y, Modulus(w));
    SignedOfTrunc(w, Quotient(x, y));
    SignedOfTrunc(w, Remainder(x, y));
  }

  lemma SignedHighLaw(a: u64, b: u64)
    ensures PqrMeans(Shmul, W64, a, b, Pqr(Shmul, W64, a, b))
  {
    TruncRange(W64, a);
    TruncRange(W64, b);
    var x, y := Signed(W64, a), Signed(W64, b);
    hide Trunc, Signed;
    ProductBound(x, y, WORD / 2);
    var p := x * y;
    assert p == (p / WORD) * WORD + p % WORD;
    SignedOfTrunc(W64, p / WORD);
  }

  lemma ProductBound(x: int, y: int, h: nat)
    requires 0 - h <= x <= h && 0 - h <= y <= h
    ensures 0 - h * h <= x * y <= h * h
  {
    assert (h - x) * (h + y) >= 0 && (h + x) * (h - y) >= 0;
    assert (h - x) * (h - y) >= 0 && (h + x) * (h + y) >= 0;
    assert (h - x) * (h + y) == h * h + h * y - x * h - x * y;
    assert (h + x) * (h - y) == h * h - h * y + x * h - x * y;
    assert (h - x) * (h - y) == h * h - h * y - x * h + x * y;
    assert (h + x) * (h + y) == h * h + h * y + x * h + x * y;
  }

  lemma UnsignedHighLaw(a: u64, b: u64)
    ensures PqrMeans(Uhmul, W64, a, b, Pqr(Uhmul, W64, a, b))
  {
    var x: int, y: int := a, b;
    Monotone(x, WORD - 1, y);
    hide Trunc;
    HighHalves(x * y);
    TruncOfSmall((x * y) / WORD);
  }

  lemma HighHalves(p: nat)
    requires p <= (WORD - 1) * (WORD - 1)
    ensures 0 <= p / WORD < WORD && (p / WORD) * WORD <= p < (p / WORD) * WORD + WORD
  {
  }

  /** Every product, quotient and remainder is the number its name promises. */
  lemma PqrLaw(op: PqrOp, w: Width, a: u64, b: u64)
    requires IsDivision(op) ==> Trunc(w, b) != 0
    requires IsSigned(op) ==> !Overflows(w, a, b)
    ensures PqrMeans(op, w, a, b, Pqr(op, w, a, b))
  {
    hide Trunc, Signed, Overflows, Divides, Fits, Agree;
    match op
    case Lmul => TruncLaw(w, a * b);
    case Uhmul => UnsignedHighLaw(a, b);
    case Shmul => SignedHighLaw(a, b);
    case Udiv => UnsignedDivisionLaw(w, a, b);
    case Urem => UnsignedDivisionLaw(w, a, b);
    case Sdiv => SignedDivisionLaw(w, a, b);
    case Srem => SignedDivisionLaw(w, a, b);
  }

  // ---------------------------------------------------------------- comparisons

  /** The low bits of an integer as an unsigned number. */
  ghost function Low(w: Width, x: int): int {
    x % Pow2(Bits(w))
  }

  /** The low bits with the sign turned over, which brings signed numbers into unsigned order. */
  ghost function Flipped(w: Width, x: int): int {
    Low(w, x + Pow2(Bits(w) - 1))
  }

  ghost predicate HoldsMeans(c: Condition, w: Width, a: u64, b: u64) {
    match c
    case Always => true
    case Eq => Agree(w, a, b)
    case Ne => !Agree(w, a, b)
    case Gt => Low(w, a) > Low(w, b)
    case Ge => Low(w, a) >= Low(w, b)
    case Lt => Low(w, a) < Low(w, b)
    case Le => Low(w, a) <= Low(w, b)
    case Set => exists k: nat :: k < Bits(w) && Bit(a, k) && Bit(b, k)
    case Sgt => Flipped(w, a) > Flipped(w, b)
    case Sge => Flipped(w, a) >= Flipped(w, b)
    case Slt => Flipped(w, a) < Flipped(w, b)
    case Sle => Flipped(w, a) <= Flipped(w, b)
  }

  lemma LowIsTrunc(w: Width, x: int)
    ensures Low(w, x) == Trunc(w, x) && 0 <= Trunc(w, x) < Pow2(Bits(w))
  {
    hide Pow2;
    PowersOfWidths(w);
  }

  lemma FlippedIsSigned(w: Width, x: int)
    ensures Flipped(w, x) == Signed(w, x) + Pow2(Bits(w) - 1)
  {
    hide Pow2;
    PowersOfWidths(w);
    SignedLaw(w, x);
    var m, h := Pow2(Bits(w)), Pow2(Bits(w) - 1);
    var s := Signed(w, x);
    hide Signed;
    var q := (x - s) / m;
    assert x + h == q * m + (s + h);
    DivModUnique(m, q, s + h);
  }

  lemma AgreeIsEqual(w: Width, a: int, b: int)
    ensures Agree(w, a, b) <==> Trunc(w, a) == Trunc(w, b)
  {
    hide Pow2, Trunc;
    LowIsTrunc(w, a);
    LowIsTrunc(w, b);
    var m := Pow2(Bits(w));
    assert a == (a / m) * m + Trunc(w, a) && b == (b / m) * m + Trunc(w, b);
    if Agree(w, a, b) {
      var q := (a - b) / m;
      assert a - b == q * m;
      assert (q + b / m) * m == q * m + (b / m) * m;
      DivModUnique(m, q + b / m, Trunc(w, b));
    } else if Trunc(w, a) == Trunc(w, b) {
      var q := a / m - b / m;
      assert a - b == q * m + 0;
      DivModUnique(m, q, 0);
    }
  }

  lemma CommonBit(w: Width, a: u64, b: u64)
    ensures BitAnd(Trunc(w, a), Trunc(w, b)) != 0 <==> HoldsMeans(Set, w, a, b)
  {
    hide Pow2, Bit, Trunc;
    var x, y := Trunc(w, a), Trunc(w, b);
    var z := BitAnd(x, y);
    forall k: nat ensures Bit(z, k) == (k < Bits(w) && Bit(a, k) && Bit(b, k)) {
      AndBit(x, y, k);
      TruncBit(w, a, k);
      TruncBit(w, b, k);
    }
    if z != 0 {
      var k := SomeBit(z);
    } else {
      forall k: nat ensures !Bit(z, k) {
        ZeroBit(k);
      }
    }
  }

  /** Every condition compares what its name promises. */
  lemma HoldsLaw(c: Condition, w: Width, a: u64, b: u64)
    ensures Holds(c, w, a, b) <==> HoldsMeans(c, w, a, b)
  {
    hide Trunc, Signed, Agree, Low, Flipped, Bit, BitAnd;
    AgreeIsEqual(w, a, b);
    LowIsTrunc(w, a);
    LowIsTrunc(w, b);
    FlippedIsSigned(w, a);
    FlippedIsSigned(w, b);
    CommonBit(w, a, b);
  }
}
