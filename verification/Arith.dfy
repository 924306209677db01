// Powers of two, binary logarithms and the masking identities that turn the
// allocator's bit tricks on size_t values into ordinary arithmetic.
module Arith {

  function Pow2(k: nat): (p: int)
    ensures p >= 1
  {
    if k == 0 then 1 else 2 * Pow2(k - 1)
  }

  function Min(a: int, b: int): int { if a < b then a else b }

  // Index of the highest set bit of a positive number.
  function Log2(n: int): (k: nat)
    requires n >= 1
    decreases n
  {
    if n < 2 then 0 else 1 + Log2(n / 2)
  }

  lemma {:induction false} Log2Bounds(n: int)
    requires n >= 1
    ensures Pow2(Log2(n)) <= n < 2 * Pow2(Log2(n))
  {
    if n >= 2 { Log2Bounds(n / 2); }
  }

  lemma {:induction false} Pow2Monotone(j: nat, k: nat)
    requires j <= k
    ensures Pow2(j) <= Pow2(k)
    ensures j < k ==> 2 * Pow2(j) <= Pow2(k)
    decreases k
  {
    if j < k { Pow2Monotone(j, k - 1); }
  }

  lemma {:induction false} Pow2Sum(j: nat, k: nat)
    ensures Pow2(j + k) == Pow2(j) * Pow2(k)
    decreases k
  {
    if k > 0 {
      Pow2Sum(j, k - 1);
      assert Pow2(j + k) == 2 * Pow2(j + (k - 1));
    }
  }

  // The logarithm is determined by its bounds.
  lemma Log2Unique(n: int, k: nat)
    requires n >= 1
    requires Pow2(k) <= n < 2 * Pow2(k)
    ensures Log2(n) == k
  {
    Log2Bounds(n);
    if Log2(n) < k { Pow2Monotone(Log2(n), k); }
    if k < Log2(n) { Pow2Monotone(k, Log2(n)); }
  }

  lemma Log2Monotone(m: int, n: int)
    requires 1 <= m <= n
    ensures Log2(m) <= Log2(n)
  {
    Log2Bounds(m);
    Log2Bounds(n);
    if Log2(n) < Log2(m) { Pow2Monotone(Log2(n), Log2(m)); }
  }

  lemma DivBounds(x: int, p: int)
    requires x >= 0 && p > 0
    ensures 0 <= x - (x / p) * p < p
    ensures x / p >= 0
  {
  }

  lemma WholeBytes(x: int, k: int)
    ensures (x + 256 * k) % 256 == x % 256
  {
  }

  lemma MulMonotone(a: int, b: int, p: int)
    requires a <= b && p >= 0
    ensures a * p <= b * p
  {
  }

  // q is the quotient as soon as it brackets x.
  lemma DivUnique(x: int, p: int, q: int)
    requires p > 0 && q * p <= x < q * p + p
    ensures x / p == q
  {
    var d := x / p;
    assert d * p <= x < d * p + p;
    if d < q {
      MulMonotone(d + 1, q, p);
      assert false;
    } else if q < d {
      MulMonotone(q + 1, d, p);
      assert false;
    }
  }

  lemma DivMonotone(x: int, y: int, p: int)
    requires 0 <= x <= y && p > 0
    ensures x / p <= y / p
  {
    if y / p < x / p {
      MulMonotone(y / p + 1, x / p, p);
      assert false;
    }
  }

  // ---- Bitwise operators on natural numbers, by binary expansion ----

  function BitAnd(a: nat, b: nat): nat
    decreases a
  {
    if a == 0 || b == 0 then 0
    else 2 * BitAnd(a / 2, b / 2) + (if a % 2 == 1 && b % 2 == 1 then 1 else 0)
  }

  function BitOr(a: nat, b: nat): nat
    decreases a + b
  {
    if a + b == 0 then 0
    else 2 * BitOr(a / 2, b / 2) + (if a % 2 == 1 || b % 2 == 1 then 1 else 0)
  }

  function BitXor(a: nat, b: nat): nat
    decreases a + b
  {
    if a + b == 0 then 0
    else 2 * BitXor(a / 2, b / 2) + (if a % 2 != b % 2 then 1 else 0)
  }

  // Shifts and the low bits, one bit at a time.
  function ShiftLeft(h: nat, k: nat): (r: nat) { if k == 0 then h else 2 * ShiftLeft(h, k - 1) }
  function ShiftRight(x: nat, k: nat): (r: nat) { if k == 0 then x else ShiftRight(x / 2, k - 1) }
  function LowPart(x: nat, k: nat): (r: nat) { if k == 0 then 0 else 2 * LowPart(x / 2, k - 1) + x % 2 }

  lemma {:induction false} ShiftLeftIsTimes(h: nat, k: nat)
    ensures ShiftLeft(h, k) == Pow2(k) * h
  {
    if k > 0 {
      ShiftLeftIsTimes(h, k - 1);
      Twice(Pow2(k - 1), h);
    }
  }

  lemma Twice(p: int, x: int)
    ensures 2 * (p * x) == 2 * p * x
  {
  }

  lemma {:induction false} SplitAt(x: nat, k: nat)
    ensures x == ShiftRight(x, k) * Pow2(k) + LowPart(x, k) && LowPart(x, k) < Pow2(k)
    decreases k
  {
    if k > 0 {
      SplitAt(x / 2, k - 1);
      Twice(Pow2(k - 1), ShiftRight(x, k));
    }
  }

  lemma ShiftIsDiv(x: nat, k: nat)
    ensures ShiftRight(x, k) == x / Pow2(k) && LowPart(x, k) == x % Pow2(k)
  {
    hide ShiftRight, LowPart, Pow2;
    SplitAt(x, k);
    DivUnique(x, Pow2(k), ShiftRight(x, k));
    QuotientRest(x, Pow2(k));
  }

  lemma QuotientRest(x: int, p: int)
    requires p > 0
    ensures x == x / p * p + x % p
  {
  }

  // x & ~(2^k - 1), on n-bit words, rounds x down to a multiple of 2^k.
  lemma MaskRoundsDown(x: nat, n: nat, k: nat)
    requires k <= n && x < Pow2(n)
    ensures Pow2(k) <= Pow2(n)
    ensures BitAnd(x, Pow2(n) - Pow2(k)) == x - x % Pow2(k)
  {
    MaskClearsLow(x, n, k);
    ShiftIsDiv(x, k);
  }

  lemma {:induction false} MaskClearsLow(x: nat, n: nat, k: nat)
    requires k <= n && x < Pow2(n)
    ensures Pow2(k) <= Pow2(n)
    ensures BitAnd(x, Pow2(n) - Pow2(k)) == x - LowPart(x, k)
    decreases n
  {
    hide BitAnd;
    if n == 0 {
      AndZero(Pow2(n) - Pow2(k));
    } else if k == 0 {
      MaskAll(x, n);
    } else {
      MaskClearsLow(x / 2, n - 1, k - 1);
      AndDoubles(x, Pow2(n - 1) - Pow2(k - 1));
    }
  }

  lemma AndZero(h: nat)
    ensures BitAnd(0, h) == 0
  {
  }

  lemma {:induction false} AndDoubles(x: nat, h: nat)
    ensures BitAnd(x, 2 * h) == 2 * BitAnd(x / 2, h)
  {
    if x != 0 && h != 0 {
      assert 2 * h / 2 == h && 2 * h % 2 == 0;
    }
  }

  lemma ModSmall(x: int, p: int)
    requires 0 <= x < p
    ensures x % p == x
  {
  }

  lemma {:induction false} MaskAll(x: nat, n: nat)
    requires x < Pow2(n)
    ensures BitAnd(x, Pow2(n) - 1) == x
    decreases n
  {
    if n > 0 && x > 0 {
      MaskAll(x / 2, n - 1);
      assert Pow2(n) - 1 == 2 * (Pow2(n - 1) - 1) + 1;
      assert (Pow2(n) - 1) / 2 == Pow2(n - 1) - 1 && (Pow2(n) - 1) % 2 == 1;
    }
  }

  // x & (2^n - 1) is the remainder.
  lemma LowMask(x: nat, n: nat)
    ensures BitAnd(x, Pow2(n) - 1) == x % Pow2(n)
  {
    LowBits(x, n);
    ShiftIsDiv(x, n);
  }

  lemma {:induction false} LowBits(x: nat, n: nat)
    ensures BitAnd(x, Pow2(n) - 1) == LowPart(x, n)
    decreases n
  {
    if n > 0 {
      hide BitAnd;
      LowBits(x / 2, n - 1);
      AndOdd(x, Pow2(n - 1) - 1);
    }
  }

  lemma AndOdd(x: nat, h: nat)
    ensures BitAnd(x, 2 * h + 1) == 2 * BitAnd(x / 2, h) + x % 2
  {
    var b := 2 * h + 1;
    assert b / 2 == h && b % 2 == 1;
    if x == 0 { AndZero(h); }
  }

  // A mask whose low k bits are clear acts on the shifted word.
  lemma {:induction false} ShiftedMask(x: nat, k: nat, h: nat)
    ensures BitAnd(x, ShiftLeft(h, k)) == ShiftLeft(BitAnd(ShiftRight(x, k), h), k)
    decreases k
  {
    if k > 0 {
      hide BitAnd;
      ShiftedMask(x / 2, k - 1, h);
      AndDoubles(x, ShiftLeft(h, k - 1));
    }
  }

  lemma {:induction false} OrZero(s: nat)
    ensures BitOr(s, 0) == s
  {
    if s > 0 { OrZero(s / 2); }
  }

  // x ^ 32 clears the leading bit of a six-bit number.
  lemma XorDropsTopBit(x: nat)
    requires 32 <= x < 64
    ensures BitXor(x, 32) == x - 32
  {
    var a := x / 2; var b := a / 2; var c := b / 2; var d := c / 2; var e := d / 2;
    assert e == 1 && BitXor(1, 1) == 0;
    assert BitXor(d, 2) == d - 2;
    assert BitXor(c, 4) == c - 4;
    assert BitXor(b, 8) == b - 8;
    assert BitXor(a, 16) == a - 16;
  }

  // Or-ing operands without common bits adds them.
  lemma {:induction false} DisjointOr(a: nat, b: nat)
    requires BitAnd(a, b) == 0
    ensures BitOr(a, b) == a + b
    decreases a + b
  {
    if a == 0 {
      OrZeroLeft(b);
    } else if b == 0 {
      OrZero(a);
    } else {
      DisjointOr(a / 2, b / 2);
    }
  }

  lemma {:induction false} OrZeroLeft(b: nat)
    ensures BitOr(0, b) == b
  {
    if b > 0 { OrZeroLeft(b / 2); }
  }

  // A multiple of 2^k and a number below 2^k have no common bits.
  lemma {:induction false} LowAndHigh(a: nat, b: nat, k: nat)
    requires a % Pow2(k) == 0 && b < Pow2(k)
    ensures BitAnd(a, b) == 0
    decreases k
  {
    if k > 0 && a > 0 && b > 0 {
      HalfMultiple(a, Pow2(k - 1));
      LowAndHigh(a / 2, b / 2, k - 1);
    }
  }

  lemma HalfMultiple(a: nat, p: int)
    requires p > 0 && a % (2 * p) == 0
    ensures a % 2 == 0 && a / 2 % p == 0
  {
    var q := a / (2 * p);
    assert a == 2 * (q * p);
    DivUnique(q * p, p, q);
  }

  // The test (x & (x - 1)) == 0 that the allocator asserts of alignments.
  lemma PowerOfTwoTest(k: nat)
    ensures BitAnd(Pow2(k), Pow2(k) - 1) == 0
  {
    hide BitAnd, Pow2;
    DivUnique(Pow2(k), Pow2(k), 1);
    LowAndHigh(Pow2(k), Pow2(k) - 1, k);
  }
}
