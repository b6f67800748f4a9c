/** Unsigned 64-bit words: saturating arithmetic and the bit operations, defined bit by bit. */
module Words {

  const WORD: int := 0x1_0000_0000_0000_0000
  const MAX: int := 0xFFFF_FFFF_FFFF_FFFF

  type u64 = x: int | 0 <= x < 0x1_0000_0000_0000_0000

  function SaturatingAdd(a: u64, b: u64): u64 {
    if a + b <= MAX then a + b else MAX
  }

  function SaturatingSub(a: u64, b: u64): u64 {
    if a >= b then a - b else 0
  }

  function SaturatingDouble(a: u64): u64 {
    if 2 * a <= MAX then 2 * a else MAX
  }

  function Pow2(n: nat): (p: nat)
    ensures p >= 1
  {
    if n == 0 then 1 else 2 * Pow2(n - 1)
  }

  function BitAnd(a: nat, b: nat): nat {
    if a == 0 || b == 0 then 0 else 2 * BitAnd(a / 2, b / 2) + (if a % 2 == 1 && b % 2 == 1 then 1 else 0)
  }

  function BitOr(a: nat, b: nat): nat
    decreases a + b
  {
    if a == 0 then b else if b == 0 then a else 2 * BitOr(a / 2, b / 2) + (if a % 2 == 1 || b % 2 == 1 then 1 else 0)
  }

  /** The complement of a 64-bit word. */
  function BitNot(a: u64): u64 {
    MAX - a
  }

  lemma {:induction false} Pow2Adds(m: nat, n: nat)
    ensures Pow2(m + n) == Pow2(m) * Pow2(n)
  {
    if m > 0 {
      Pow2Adds(m - 1, n);
      assert Pow2(m + n) == 2 * Pow2(m - 1 + n);
      assert 2 * (Pow2(m - 1) * Pow2(n)) == (2 * Pow2(m - 1)) * Pow2(n);
    }
  }

  lemma Pow2Is2()
    ensures Pow2(1) == 2
  {
  }

  lemma Pow2Is64()
    ensures Pow2(64) == WORD
  {
    hide Pow2;
    Pow2Is2();
    Pow2Adds(1, 1);
    Pow2Adds(2, 2);
    Pow2Adds(4, 4);
    Pow2Adds(8, 8);
    Pow2Adds(16, 16);
    Pow2Adds(32, 32);
  }

  lemma {:induction false} Pow2Grows(m: nat, n: nat)
    requires m <= n
    ensures Pow2(m) <= Pow2(n) && (m < n ==> 2 * Pow2(m) <= Pow2(n))
  {
    if m < n {
      Pow2Grows(m, n - 1);
    }
  }

  /** Quotient and remainder are determined by q * m + r with r below m. */
  lemma DivModUnique(m: nat, q: int, r: nat)
    requires r < m
    ensures (q * m + r) / m == q && (q * m + r) % m == r
  {
    var x := q * m + r;
    var k := x / m - q;
    assert x == (x / m) * m + x % m;
    assert k * m == (x / m) * m - q * m;
    MultipleIsLarge(k, m);
  }

  /** Products grow with their first factor. */
  lemma {:induction false} Monotone(a: nat, b: nat, size: nat)
    requires a <= b
    ensures a * size <= b * size == size * b && (a + 1) * size == a * size + size
    decreases b - a
  {
    if a < b {
      Monotone(a, b - 1, size);
      assert b * size == (b - 1) * size + size;
    }
  }

  lemma MultipleIsLarge(k: int, m: nat)
    ensures k >= 1 ==> k * m >= m
    ensures k <= -1 ==> k * m <= 0 - m
  {
    if k >= 1 {
      assert k * m == (k - 1) * m + m;
      assert (k - 1) * m >= 0;
    } else if k <= -1 {
      assert k * m == -((-k - 1) * m) - m;
      assert (-k - 1) * m >= 0;
    }
  }

  lemma QuotientIsNat(x: nat, m: nat)
    requires m > 0
    ensures x / m >= 0
  {
    assert x == (x / m) * m + x % m;
    MultipleIsLarge(x / m, m);
  }

  /** Halving x and a power of two together. */
  lemma HalveMod(x: nat, s: nat)
    ensures x % Pow2(s + 1) == 2 * ((x / 2) % Pow2(s)) + x % 2
    ensures x / Pow2(s + 1) == (x / 2) / Pow2(s)
  {
    var m := Pow2(s);
    var q, r := (x / 2) / m, (x / 2) % m;
    assert x / 2 == q * m + r;
    assert x == q * (2 * m) + (2 * r + x % 2) by {
      assert 2 * (q * m) == q * (2 * m);
    }
    DivModUnique(2 * m, q, 2 * r + x % 2);
  }

  lemma AndStep(a: nat, b: nat)
    ensures BitAnd(a, b) == 2 * BitAnd(a / 2, b / 2) + (if a % 2 == 1 && b % 2 == 1 then 1 else 0)
  {
  }

  /** A word with the low bits kept: `a & (2^s - 1)`. */
  lemma {:induction false} AndLow(a: nat, s: nat)
    ensures BitAnd(a, Pow2(s) - 1) == a % Pow2(s)
    decreases s
  {
    if s == 0 {
      assert Pow2(0) == 1;
    } else {
      hide BitAnd;
      var m := Pow2(s) - 1;
      assert m == 2 * (Pow2(s - 1) - 1) + 1;
      assert m / 2 == Pow2(s - 1) - 1 && m % 2 == 1;
      hide Pow2;
      AndLow(a / 2, s - 1);
      HalveMod(a, s - 1);
      AndStep(a, m);
    }
  }

  lemma Pow2Step(n: nat)
    requires n > 0
    ensures Pow2(n) == 2 * Pow2(n - 1)
  {
  }

  /** A word with the low bits cleared: `a & (2^n - 2^s)` for a word of n bits. */
  lemma {:induction false} AndHigh(a: nat, s: nat, n: nat)
    requires s <= n && a < Pow2(n)
    ensures Pow2(s) <= Pow2(n) && BitAnd(a, Pow2(n) - Pow2(s)) == a - a % Pow2(s)
    decreases n
  {
    hide BitAnd, Pow2;
    Pow2Grows(s, n);
    if s == 0 {
      Pow2Zero();
      AndLow(a, n);
      ModSmall(a, Pow2(n));
    } else {
      Pow2Step(n);
      Pow2Step(s);
      Halved(a, Pow2(n - 1), Pow2(s - 1));
      AndHigh(a / 2, s - 1, n - 1);
      AndHighStep(a, Pow2(n) - Pow2(s), s);
    }
  }

  lemma Halved(a: nat, p: nat, q: nat)
    requires a < 2 * p && q <= p
    ensures a / 2 < p && (2 * p - 2 * q) % 2 == 0 && (2 * p - 2 * q) / 2 == p - q
  {
  }

  lemma Pow2Zero()
    ensures Pow2(0) == 1
  {
  }

  lemma AndHighStep(a: nat, m: nat, s: nat)
    requires s > 0 && m % 2 == 0 && BitAnd(a / 2, m / 2) == a / 2 - (a / 2) % Pow2(s - 1)
    ensures BitAnd(a, m) == a - a % Pow2(s)
  {
    hide BitAnd, Pow2;
    HalveMod(a, s - 1);
    AndStep(a, m);
  }

  lemma ModSmall(a: nat, m: nat)
    requires a < m
    ensures a % m == a && a / m == 0
  {
    DivModUnique(m, 0, a);
  }

  /** Disjoint bits: `h * 2^s | l` adds up. */
  lemma {:induction false} OrDisjoint(h: nat, l: nat, s: nat)
    requires l < Pow2(s)
    ensures BitOr(h * Pow2(s), l) == h * Pow2(s) + l
    decreases s
  {
    if s == 0 {
      assert l == 0;
    } else {
      var x := h * Pow2(s);
      assert x == 2 * (h * Pow2(s - 1));
      OrDisjoint(h, l / 2, s - 1);
      assert x / 2 == h * Pow2(s - 1) && x % 2 == 0;
    }
  }
}
