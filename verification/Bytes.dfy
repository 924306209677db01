// Byte-wise copying over 64-bit little-endian words.
module Bytes {
  import opened Arith
  import opened SizeClass
  import opened HeapMemory

  // The low r bytes of two words are the same.
  ghost predicate LowBytesAgree(w: int, w': int, r: nat) {
    w % Pow2(8 * r) == w' % Pow2(8 * r)
  }

  // w with its low r bytes taken from v and the others kept.
  function WithLowBytes(w: int, v: int, r: nat): int {
    w - w % Pow2(8 * r) + v % Pow2(8 * r)
  }

  lemma LowBytesTaken(w: int, v: int, r: nat)
    ensures LowBytesAgree(WithLowBytes(w, v, r), v, r)
    ensures WithLowBytes(w, v, r) / Pow2(8 * r) == w / Pow2(8 * r)
  {
    var p := Pow2(8 * r);
    ModOfSum(w / p, v % p, p);
    DivUnique(w / p * p + v % p, p, w / p);
    assert w - w % p == (w / p) * p;
  }

  lemma ModOfSum(q: int, r: int, p: int)
    requires p > 0 && 0 <= r < p
    ensures (q * p + r) % p == r
  {
    DivUnique(q * p + r, p, q);
  }

  // Byte j of a little-endian word, and the byte at an address.
  function ByteOf(w: int, j: nat): int { w / Pow2(8 * j) % 256 }

  // A word is made up of its bytes, the low ones first: each adds to what those
  // below it make.
  lemma WordOfBytes(w: int, j: nat)
    ensures w % Pow2(8 * (j + 1)) == w % Pow2(8 * j) + ByteOf(w, j) * Pow2(8 * j)
    ensures 0 <= ByteOf(w, j) < 256
  {
    Pow2Sum(8, 8 * j);
    assert Pow2(8) == 256;
    hide Pow2;
    ByteAbove(w, Pow2(8 * j), w / Pow2(8 * j));
  }

  lemma ByteAbove(w: int, p: int, q: int)
    requires p > 0 && q == w / p
    ensures w % (256 * p) == w % p + q % 256 * p
  {
    var r, d, b := w % p, q / 256, q % 256;
    QuotientRest(w, p);
    Redistribute(q, d, b, p);
    ByteBelow(b, r, p);
    assert w == d * (256 * p) + (b * p + r);
    ModOfSum(d, b * p + r, 256 * p);
  }

  lemma Redistribute(q: int, d: int, b: int, p: int)
    requires q == 256 * d + b
    ensures q * p == d * (256 * p) + b * p
  {
  }

  lemma ByteBelow(b: int, r: int, p: int)
    requires 0 <= b < 256 && 0 <= r < p
    ensures 0 <= b * p + r < 256 * p
  {
    MulMonotone(b, 255, p);
    MulMonotone(0, b, p);
  }

  function WordAt(y: int): int { y - y % 8 }

  ghost predicate HoldsByte(m: Mem, y: int, v: int) {
    WordAt(y) in m && ByteOf(m[WordAt(y)], y % 8) == v
  }

  // Words that agree in their low r bytes agree in each of them.
  lemma LowByteSame(w: int, w': int, r: nat, j: nat)
    requires LowBytesAgree(w, w', r) && j < r
    ensures ByteOf(w, j) == ByteOf(w', j)
  {
    hide ByteOf, Pow2;
    LowBytesDecide(w, r, j);
    LowBytesDecide(w', r, j);
  }

  lemma LowBytesDecide(w: int, r: nat, j: nat)
    requires j < r
    ensures ByteOf(w, j) == ByteOf(w % Pow2(8 * r), j)
  {
    var k := r - 1 - j;
    Pow2Sum(8 * j, 8 + 8 * k);
    Pow2Sum(8, 8 * k);
    assert Pow2(8) == 256;
    hide Pow2;
    var p, h := Pow2(8 * j), Pow2(8 * k);
    assert 8 * j + (8 + 8 * k) == 8 * r;
    TopDropped(w, p, h, Pow2(8 * r));
  }

  lemma TopDropped(w: int, p: int, h: int, r: int)
    requires p > 0 && h > 0 && r == p * (256 * h) && r > 0
    ensures w / p % 256 == w % r / p % 256
  {
    var q, v := w / r, w % r;
    var k := q * h;
    QuotientRest(w, r);
    QuotientRest(v, p);
    assert q * r == 256 * k * p by { assert q * (p * (256 * h)) == 256 * (q * h) * p; }
    assert w == (256 * k + v / p) * p + v % p;
    DivUnique(w, p, 256 * k + v / p);
    WholeBytes(v / p, k);
  }

  lemma WordInside(b: int, y: int)
    requires Multiple8(b) && b <= y
    ensures b <= WordAt(y) <= y < WordAt(y) + 8 && Multiple8(WordAt(y))
  {
  }

  // A byte of a kept payload.
  lemma KeptByte(m: Mem, m': Mem, a: int, end: int, y: int, v: int)
    requires PayloadKept(m, m', a, end) && Multiple8(a + 16) && a + 16 <= y < end + 8 && HoldsByte(m, y, v)
    ensures HoldsByte(m', y, v)
  {
    WordInside(a + 16, y);
    hide WordAt, ByteOf;
  }

  // A byte that was copied, the last partial word included.
  lemma CopiedByte(m: Mem, src: int, m': Mem, dst: int, n: int, i: int, v: int)
    requires Copied(m, src, m', dst, n) && Multiple8(src) && Multiple8(dst) && 0 <= i < n
    requires HoldsByte(m, src + i, v)
    ensures HoldsByte(m', dst + i, v)
  {
    hide WordAt, ByteOf, Multiple8, Copied, LowBytesAgree;
    var x := WordAt(i);
    SamePlace(src, i);
    SamePlace(dst, i);
    WordInside(0, i);
    CopiedWord(m, src, m', dst, n, x);
    if x + 8 > n { LowByteSame(m'[dst + x], m[src + x], n - x, i % 8); }
  }

  lemma CopiedWord(m: Mem, src: int, m': Mem, dst: int, n: int, x: int)
    requires Copied(m, src, m', dst, n) && Multiple8(x) && 0 <= x < n
    ensures src + x in m && dst + x in m'
    ensures if x + 8 <= n then m'[dst + x] == m[src + x] else LowBytesAgree(m'[dst + x], m[src + x], n - x)
  {
    hide LowBytesAgree;
  }

  lemma SamePlace(b: int, i: int)
    requires Multiple8(b)
    ensures WordAt(b + i) == b + WordAt(i) && (b + i) % 8 == i % 8 && Multiple8(0)
    ensures i == WordAt(i) + i % 8
  {
  }

  // Storing a word changes its eight bytes.
  lemma StoredByte(m: Mem, address: int, value: int, y: int, v: int)
    requires Multiple8(address)
    ensures address <= y < address + 8 ==> HoldsByte(m[address := value], y, ByteOf(value, y - address))
    ensures !(address <= y < address + 8) && HoldsByte(m, y, v) ==> HoldsByte(m[address := value], y, v)
  {
    hide ByteOf;
    WordUnique(address, y);
  }

  lemma WordUnique(address: int, y: int)
    requires Multiple8(address)
    ensures WordAt(y) == address <==> address <= y < address + 8
    ensures WordAt(y) == address ==> y % 8 == y - address
  {
  }

  // The n bytes at dst in m' are the n bytes that were at src in m; both
  // addresses are multiples of eight.
  ghost predicate Copied(m: Mem, src: int, m': Mem, dst: int, n: int) {
    && (forall x {:trigger Multiple8(x)} :: 0 <= x && x + 8 <= n && Multiple8(x) ==>
          src + x in m && dst + x in m' && m'[dst + x] == m[src + x])
    && (forall x {:trigger Multiple8(x)} :: 0 <= x < n < x + 8 && Multiple8(x) ==>
          src + x in m && dst + x in m' && LowBytesAgree(m'[dst + x], m[src + x], n - x))
  }

  // A payload that is kept keeps its first n bytes.
  lemma KeptIsCopied(m: Mem, m': Mem, a: int, end: int, n: int)
    requires PayloadKept(m, m', a, end) && a + 16 + n <= end + 8
    requires forall x :: 0 <= x < n && Multiple8(x) ==> a + 16 + x in m
    ensures Copied(m, a + 16, m', a + 16, n)
  {
  }

  // A copy survives changes elsewhere.
  lemma CopySurvives(m: Mem, src: int, m1: Mem, m2: Mem, b: int, end: int, n: int)
    requires Copied(m, src, m1, b + 16, n) && PayloadKept(m1, m2, b, end) && b + 16 + n <= end + 8
    ensures Copied(m, src, m2, b + 16, n)
  {
  }

  // What is copied after a payload was kept is what was there before.
  lemma CopyOfKept(m0: Mem, m1: Mem, a: int, end: int, m2: Mem, dst: int, n: int)
    requires PayloadKept(m0, m1, a, end) && a + 16 + n <= end + 8
    requires forall x :: 0 <= x < n && Multiple8(x) ==> a + 16 + x in m0
    requires Copied(m1, a + 16, m2, dst, n)
    ensures Copied(m0, a + 16, m2, dst, n)
  {
  }

  lemma Below8(i: int, x: int)
    requires Multiple8(i) && Multiple8(x) && x < i + 8
    ensures x + 8 <= i || x == i
  {
  }

  lemma Step8(i: int)
    ensures Multiple8(0)
    ensures Multiple8(i) ==> Multiple8(i + 8)
  {
  }

  // memcpy of n bytes between two disjoint 8-aligned stretches of memory.
  method CopyBytes(m: Mem, dst: int, src: int, n: nat) returns (m': Mem)
    requires forall x {:trigger Multiple8(x)} :: 0 <= x < n && Multiple8(x) ==> dst + x in m && src + x in m
    requires dst + n <= src || src + n <= dst
    ensures Copied(m, src, m', dst, n)
    ensures forall x {:trigger Multiple8(x)} :: 0 <= x < n < x + 8 && Multiple8(x) ==>
      dst + x in m' && m'[dst + x] == WithLowBytes(m[dst + x], m[src + x], n - x)
    ensures m'.Keys == m.Keys && forall x :: x in m && !(dst <= x < dst + n) ==> m'[x] == m[x]
  {
    hide Multiple8, LowBytesAgree, WithLowBytes;
    m' := m;
    var i := 0;
    Step8(i);
    while i + 8 <= n
      invariant 0 <= i <= n && Multiple8(i)
      invariant m'.Keys == m.Keys && forall x :: x in m && !(dst <= x < dst + i) ==> m'[x] == m[x]
      invariant forall x {:trigger Multiple8(x)} :: 0 <= x < i && Multiple8(x) ==> m'[dst + x] == m[src + x]
    {
      assert dst + i in m && src + i in m;
      ghost var m0 := m';
      m' := m'[dst + i := m'[src + i]];
      forall x | 0 <= x < i + 8 && Multiple8(x) ensures m'[dst + x] == m[src + x] {
        Below8(i, x);
      }
      Step8(i);
      i := i + 8;
    }
    if i < n {
      assert dst + i in m && src + i in m;
      LowBytesTaken(m'[dst + i], m'[src + i], n - i);
      m' := m'[dst + i := WithLowBytes(m'[dst + i], m'[src + i], n - i)];
    }
    forall x | 0 <= x < n && Multiple8(x)
      ensures x + 8 <= i || x == i
    {
      Below8(i, x);
    }
  }
}
