// The size-class arithmetic of sys/hive/mm/tlsf.c: request rounding and the
// two-level mapping from a size to its free list.
module SizeClass {
  import opened Param
  import opened Arith

  const ALIGN_SIZE := 8
  const SL_INDEX_COUNT := 32
  const SL_INDEX_COUNT_LOG2 := 5
  const FL_INDEX_SHIFT := 8
  const FL_INDEX_COUNT := 25
  const SMALL_BLOCK_SIZE := 256
  const BLOCK_SIZE_MIN := 24
  const BLOCK_SIZE_MAX := 0x1_0000_0000
  const BLOCK_HEADER_OVERHEAD := 8
  const BLOCK_HEADER_SIZE := 32
  const CLASS_COUNT := 800            // FL_INDEX_COUNT * SL_INDEX_COUNT

  predicate Multiple8(x: int) { x % 8 == 0 }

  // (x + (align - 1)) & ~(align - 1) on 64-bit size_t, wrap-around included;
  // Arith.MaskRoundsDown shows that the mask is the remainder taken off here.
  function AlignUp(x: nat, align: nat): nat
    requires align > 0
  {
    var t := (x + (align - 1)) % SIZE_T_RANGE;
    t - t % align
  }

  function AdjustRequestSize(size: nat, align: nat): nat
    requires align > 0
  {
    if size == 0 then 0
    else
      var aligned := AlignUp(size, align);
      if aligned < BLOCK_SIZE_MAX then
        if aligned > BLOCK_SIZE_MIN then aligned else BLOCK_SIZE_MIN
      else 0
  }

  // What a caller can rely on when the request does not wrap.
  lemma AdjustedRequest(size: nat)
    requires size <= SIZE_T_RANGE - 8
    ensures var s := AdjustRequestSize(size, ALIGN_SIZE);
      && (s == 0 <==> size == 0 || size > BLOCK_SIZE_MAX - 8)
      && (s != 0 ==> Multiple8(s) && BLOCK_SIZE_MIN <= s < BLOCK_SIZE_MAX && size <= s)
      && (s != 0 ==> s == BLOCK_SIZE_MIN || s < size + 8)
  {
  }

  // The last seven size_t values wrap to zero inside align_up and are then
  // answered as if 24 bytes had been asked for; all other requests are either
  // refused (zero) or rounded up.
  lemma AdjustHonoursRequestIff(size: nat)
    requires size < SIZE_T_RANGE
    ensures (AdjustRequestSize(size, ALIGN_SIZE) == 0 || AdjustRequestSize(size, ALIGN_SIZE) >= size)
       <==> size <= SIZE_T_RANGE - 8
    ensures size > SIZE_T_RANGE - 8 ==> AdjustRequestSize(size, ALIGN_SIZE) == BLOCK_SIZE_MIN
  {
  }

  lemma AdjustIsAligned(size: nat)
    ensures Multiple8(AdjustRequestSize(size, ALIGN_SIZE))
    ensures AdjustRequestSize(size, ALIGN_SIZE) < BLOCK_SIZE_MAX
    ensures AdjustRequestSize(size, ALIGN_SIZE) != 0 ==> AdjustRequestSize(size, ALIGN_SIZE) >= BLOCK_SIZE_MIN
  {
  }

  // tlsf_fls_sizet: highest set bit of a size_t, by halves.
  function FlsSizeT(size: nat): nat
    requires 0 < size < SIZE_T_RANGE
  {
    var high := size / 0x1_0000_0000;
    if high > 0 then 32 + Log2(high) else Log2(size % 0x1_0000_0000)
  }

  lemma FlsSizeTIsLog2(size: nat)
    requires 0 < size < SIZE_T_RANGE
    ensures FlsSizeT(size) == Log2(size)
  {
    hide Log2;
    if size / 0x1_0000_0000 > 0 {
      hide FlsSizeT;
      LogOfHigh(size, size / 0x1_0000_0000);
      HighFls(size);
    } else {
      ModSmall(size, 0x1_0000_0000);
    }
  }

  lemma LogOfHigh(size: nat, high: nat)
    requires high == size / 0x1_0000_0000 && high > 0
    ensures Log2(size) == 32 + Log2(high)
  {
    hide Log2, Pow2;
    Log2Bounds(high);
    HighHalf(Log2(high));
    Bracket(size, high, Pow2(Log2(high)));
    Log2Unique(size, 32 + Log2(high));
  }

  lemma HighFls(size: nat)
    requires 0 < size < SIZE_T_RANGE && size / 0x1_0000_0000 > 0
    ensures FlsSizeT(size) == 32 + Log2(size / 0x1_0000_0000)
  {
  }

  lemma Bracket(size: nat, high: nat, p: nat)
    requires high == size / 0x1_0000_0000 && p <= high < 2 * p
    ensures 0x1_0000_0000 * p <= size < 2 * (0x1_0000_0000 * p)
  {
  }

  lemma HighHalf(k: nat)
    ensures Pow2(32 + k) == 0x1_0000_0000 * Pow2(k)
  {
    Pow2Of32();
    Pow2Sum(32, k);
  }

  lemma Pow2Of32()
    ensures Pow2(8) == 256
    ensures Pow2(32) == 0x1_0000_0000
  {
    assert Pow2(8) == 256;
    Pow2Sum(8, 8);
    Pow2Sum(16, 16);
  }

  // mapping_insert, with the xor of the original.
  function MappingInsert(size: nat): (int, int)
    requires size < SIZE_T_RANGE
  {
    if size < SMALL_BLOCK_SIZE then
      (0, size / (SMALL_BLOCK_SIZE / SL_INDEX_COUNT))
    else
      ClassRow(size);
      FlsSizeTIsLog2(size);
      var fl := FlsSizeT(size);
      (fl - (FL_INDEX_SHIFT - 1), BitXor(size / Pow2(fl - SL_INDEX_COUNT_LOG2), 32))
  }

  // mapping_search rounds the size up to the next class boundary first.
  function SearchSize(size: nat): nat
    requires size < BLOCK_SIZE_MAX
    ensures size < SearchSize(size) + 1 < SIZE_T_RANGE
  {
    if size >= SMALL_BLOCK_SIZE then
      LogAtLeast(size);
      FlsSizeTIsLog2(size);
      RoundBounds(size);
      size + (Pow2(FlsSizeT(size) - SL_INDEX_COUNT_LOG2) - 1)
    else size
  }

  function MappingSearch(size: nat): (int, int)
    requires size < BLOCK_SIZE_MAX
  {
    MappingInsert(SearchSize(size))
  }

  lemma LogAtLeast(size: nat)
    requires size >= SMALL_BLOCK_SIZE
    ensures Log2(size) >= 8
  {
    Pow2Of32();
    Log2Monotone(256, size);
    Log2Unique(256, 8);
  }

  // The rounding term is at most size / 32.
  lemma RoundBounds(size: nat)
    requires size >= SMALL_BLOCK_SIZE
    ensures Log2(size) >= 8
    ensures var p := Pow2(Log2(size) - 5); 8 <= p && 32 * p <= size < 64 * p
  {
    LogAtLeast(size);
    Log2Bounds(size);
    Pow2Sum(5, Log2(size) - 5);
    assert Pow2(5) == 32;
    Pow2Monotone(3, Log2(size) - 5);
    assert Pow2(3) == 8;
  }

  // ---- The class number: row-major index 32 * fl + sl of the list ----

  function Class(size: nat): (c: nat)
  {
    if size < SMALL_BLOCK_SIZE then size / 8
    else
      RoundBounds(size);
      DivBounds(size, Pow2(Log2(size) - 5));
      ClassRow(size);
      32 * (Log2(size) - 7) + (size / Pow2(Log2(size) - 5) - 32)
  }

  // Position of a large size within its row of 32 lists.
  lemma ClassRow(size: nat)
    requires size >= SMALL_BLOCK_SIZE
    ensures Log2(size) >= 8
    ensures 32 <= size / Pow2(Log2(size) - 5) < 64
  {
    RoundBounds(size);
    hide Log2, Pow2;
    RowBounds(size, Pow2(Log2(size) - 5));
  }

  lemma RowBounds(size: nat, p: int)
    requires p > 0 && 32 * p <= size < 64 * p
    ensures 32 <= size / p < 64
  {
    var q := size / p;
    DivBounds(size, p);
    if q < 32 {
      MulMonotone(q + 1, 32, p);
      assert false;
    } else if q >= 64 {
      MulMonotone(64, q, p);
      assert false;
    }
  }

  // Row and position of a large size's class.
  lemma ClassInRow(size: nat)
    requires size >= SMALL_BLOCK_SIZE
    ensures Log2(size) >= 8
    ensures Class(size) == 32 * (Log2(size) - 7) + (size / Pow2(Log2(size) - 5) - 32)
    ensures 32 * (Log2(size) - 7) <= Class(size) < 32 * (Log2(size) - 6)
  {
    hide Log2, Pow2;
    ClassRow(size);
  }

  // mapping_insert names list (fl, sl) with 32 * fl + sl == Class(size), and
  // every size below block_size_max lands inside the 25 x 32 table.
  lemma MappingInsertIsClass(size: nat)
    requires size < SIZE_T_RANGE
    ensures var (fl, sl) := MappingInsert(size);
      0 <= fl && 0 <= sl < SL_INDEX_COUNT && 32 * fl + sl == Class(size)
    ensures MappingInsert(size).0 < FL_INDEX_COUNT <==> size < BLOCK_SIZE_MAX
    ensures Class(size) < CLASS_COUNT <==> size < BLOCK_SIZE_MAX
  {
    if size >= SMALL_BLOCK_SIZE {
      hide Log2, Pow2, FlsSizeT;
      ClassRow(size);
      FlsSizeTIsLog2(size);
      XorDropsTopBit(size / Pow2(Log2(size) - 5));
      Log2Below32Iff(size);
    }
  }

  lemma Log2Below32Iff(size: nat)
    requires size > 0
    ensures Log2(size) < 32 <==> size < BLOCK_SIZE_MAX
  {
    Pow2Of32();
    hide Log2, Pow2;
    Log2Bounds(size);
    if size < BLOCK_SIZE_MAX {
      if Log2(size) >= 32 {
        Pow2Monotone(32, Log2(size));
        assert false;
      }
    } else {
      Log2Monotone(BLOCK_SIZE_MAX, size);
      Log2Unique(BLOCK_SIZE_MAX, 32);
    }
  }

  lemma ClassMonotone(s: nat, t: nat)
    requires s <= t
    ensures Class(s) <= Class(t)
  {
    hide Log2, Pow2;
    if t < SMALL_BLOCK_SIZE {
    } else if s < SMALL_BLOCK_SIZE {
      ClassRow(t);
    } else {
      hide Class;
      ClassInRow(s);
      ClassInRow(t);
      Log2Monotone(s, t);
      if Log2(s) == Log2(t) {
        DivMonotone(s, t, Pow2(Log2(s) - 5));
      }
    }
  }

  // ---- Good fit ----

  // A block of t bytes is found for a request of s bytes: t, cut down to a multiple
  // of the class width of s, still holds it.
  ghost predicate Reaches(t: nat, s: nat) {
    if s < SMALL_BLOCK_SIZE then s <= t
    else
      LogAtLeast(s);
      s <= t - t % Pow2(Log2(s) - 5)
  }

  // The list searched first and those after it hold exactly the sizes that reach
  // the request.
  lemma SearchedClassIff(s: nat, t: nat)
    requires Multiple8(s) && s < BLOCK_SIZE_MAX
    ensures Class(SearchSize(s)) <= Class(t) <==> Reaches(t, s)
  {
    if s < SMALL_BLOCK_SIZE {
      SmallClassIff(s, t);
    } else {
      RoundBounds(s);
      SearchRoundsUp(s);
      var k := Log2(s) - 5;
      hide Log2, Pow2, SearchSize, Class;
      var q := Ceiling(s, Pow2(k));
      RoundsAbove(t, Pow2(k), q, s);
      LargeClassIff(s + (Pow2(k) - 1), t, k, q);
    }
  }

  lemma SearchRoundsUp(s: nat)
    requires SMALL_BLOCK_SIZE <= s < BLOCK_SIZE_MAX
    ensures Log2(s) >= 8 && SearchSize(s) == s + (Pow2(Log2(s) - 5) - 1) && Pow2(Log2(s) - 5) >= 8
  {
    hide Log2, Pow2, FlsSizeT;
    RoundBounds(s);
    FlsSizeTIsLog2(s);
  }

  // Sizes in the class of a boundary are no later than t exactly when t is past it.
  lemma LargeClassIff(x: nat, t: nat, k: nat, q: nat)
    requires k >= 3 && 32 <= q <= 64 && q * Pow2(k) <= x < q * Pow2(k) + Pow2(k)
    ensures Class(x) <= Class(t) <==> q * Pow2(k) <= t
  {
    hide Log2, Pow2, Class;
    SameClass(x, k, q);
    ClassBoundary(k, q);
    if q * Pow2(k) <= t { ClassMonotone(q * Pow2(k), t); } else { ClassMonotone(t, q * Pow2(k) - 1); }
  }

  lemma SmallClassIff(s: nat, t: nat)
    requires Multiple8(s) && s < SMALL_BLOCK_SIZE
    ensures Class(s) <= Class(t) <==> s <= t
  {
    if t >= SMALL_BLOCK_SIZE { ClassInRow(t); }
  }

  lemma Ceiling(s: nat, p: int) returns (q: nat)
    requires p > 0 && 32 * p <= s < 64 * p
    ensures 32 <= q <= 64 && q * p <= s + (p - 1) < q * p + p
  {
    q := (s + (p - 1)) / p;
    DivBounds(s + (p - 1), p);
    if q < 32 {
      MulMonotone(q + 1, 32, p);
      assert false;
    } else if q > 64 {
      MulMonotone(65, q, p);
      assert false;
    }
  }

  // Cutting t down to a multiple of p keeps it at or above s exactly when it is at
  // or above the next multiple.
  lemma RoundsAbove(t: nat, p: int, q: nat, s: nat)
    requires p > 0 && q * p - p < s <= q * p
    ensures s <= t - t % p <==> q * p <= t
  {
    QuotientRest(t, p);
    var d := t / p;
    if q * p <= t {
      if d < q { MulMonotone(d + 1, q, p); }
      MulMonotone(q, d, p);
    } else {
      Between(d, q, p);
    }
  }

  lemma Between(d: nat, q: nat, p: int)
    requires p > 0 && d * p < q * p
    ensures d * p <= q * p - p
  {
    if q <= d { MulMonotone(q, d, p); } else { MulMonotone(d, q - 1, p); }
    assert (q - 1) * p == q * p - p;
  }

  // Sizes from 32 times to 64 times 2^k, the end included: within one class width
  // above a multiple of 2^k the class is the same, and just below it is another.
  lemma SameClass(x: nat, k: nat, q: nat)
    requires k >= 3 && 32 <= q <= 64 && q * Pow2(k) <= x < q * Pow2(k) + Pow2(k)
    ensures Class(x) == Class(q * Pow2(k)) == 32 * (k - 2) + (q - 32)
  {
    hide Log2, Pow2, Class;
    RowClass(x, k, q);
    RowClass(q * Pow2(k), k, q);
  }

  lemma RowClass(x: nat, k: nat, q: nat)
    requires k >= 3 && 32 <= q <= 64 && q * Pow2(k) <= x < q * Pow2(k) + Pow2(k)
    ensures Class(x) == 32 * (k - 2) + (q - 32)
  {
    hide Log2, Pow2, Class;
    if q < 64 { InnerRow(x, k, q); } else { NextRow(x, k); }
  }

  lemma InnerRow(x: nat, k: nat, q: nat)
    requires k >= 3 && 32 <= q < 64 && q * Pow2(k) <= x < q * Pow2(k) + Pow2(k)
    ensures Class(x) == 32 * (k - 2) + (q - 32)
  {
    RowWidths(k);
    hide Log2, Pow2, Class;
    MulMonotone(32, q, Pow2(k));
    MulMonotone(q, 63, Pow2(k));
    Log2Unique(x, k + 5);
    ClassInRow(x);
    DivUnique(x, Pow2(k), q);
  }

  lemma NextRow(x: nat, k: nat)
    requires k >= 3 && 64 * Pow2(k) <= x < 64 * Pow2(k) + Pow2(k)
    ensures Class(x) == 32 * (k - 1)
  {
    RowWidths(k);
    hide Log2, Pow2, Class;
    Log2Unique(x, k + 6);
    ClassInRow(x);
    DivUnique(x, Pow2(k + 1), 32);
  }

  lemma RowWidths(k: nat)
    requires k >= 3
    ensures Pow2(k) >= 8 && Pow2(k + 1) == 2 * Pow2(k)
    ensures Pow2(k + 5) == 32 * Pow2(k) && Pow2(k + 6) == 64 * Pow2(k)
  {
    Pow2Monotone(3, k);
    assert Pow2(3) == 8 && Pow2(5) == 32 && Pow2(6) == 64;
    Pow2Sum(5, k);
    Pow2Sum(6, k);
  }

  lemma ClassBoundary(k: nat, q: nat)
    requires k >= 3 && 32 <= q <= 64
    ensures q * Pow2(k) >= 1 && Class(q * Pow2(k) - 1) < Class(q * Pow2(k))
  {
    hide Log2, Class;
    Pow2Monotone(3, k);
    assert Pow2(3) == 8;
    MulMonotone(32, q, Pow2(k));
    RowClass(q * Pow2(k), k, q);
    var x := q * Pow2(k) - 1;
    if q > 32 {
      assert (q - 1) * Pow2(k) == q * Pow2(k) - Pow2(k);
      RowClass(x, k, q - 1);
    } else if k > 3 {
      assert Pow2(k) == 2 * Pow2(k - 1);
      assert 63 * Pow2(k - 1) + Pow2(k - 1) == q * Pow2(k);
      RowClass(x, k - 1, 63);
    } else {
      assert x == 255;
      SmallClass(x);
    }
  }

  lemma SmallClass(x: nat)
    requires x < SMALL_BLOCK_SIZE
    ensures Class(x) == x / 8
  {
  }

  // List (fl, sl) holds the sizes from its lower bound up to the next one: steps of
  // 8 in row 0, and in row fl steps of 2^(fl + 2) from 32 times that on.
  lemma ClassIsInterval(size: nat, fl: nat, sl: nat)
    requires sl < SL_INDEX_COUNT
    ensures Class(size) == 32 * fl + sl <==>
      if fl == 0 then 8 * sl <= size < 8 * sl + 8
      else (32 + sl) * Pow2(fl + 2) <= size < (32 + sl) * Pow2(fl + 2) + Pow2(fl + 2)
  {
    hide Log2, Pow2, Class;
    if fl > 0 && (32 + sl) * Pow2(fl + 2) <= size < (32 + sl) * Pow2(fl + 2) + Pow2(fl + 2) {
      RowClass(size, fl + 2, 32 + sl);
    }
    if size < SMALL_BLOCK_SIZE {
      SmallClass(size);
    } else {
      ClassInRow(size);
      DivBounds(size, Pow2(Log2(size) - 5));
    }
  }

  // Everything filed at or after the searched list is large enough (sizes filed are
  // multiples of eight).
  lemma SearchedClassFits(s: nat, t: nat)
    requires Multiple8(s) && s < BLOCK_SIZE_MAX
    requires Class(SearchSize(s)) <= Class(t)
    ensures t >= s
  {
    hide Log2, Pow2, Class, SearchSize;
    SearchedClassIff(s, t);
    if s >= SMALL_BLOCK_SIZE { LogAtLeast(s); }
  }

  // And a block of size s + s/32 or more is filed there.
  lemma SearchedClassCovers(s: nat, t: nat)
    requires s < BLOCK_SIZE_MAX
    requires t >= s && (s < SMALL_BLOCK_SIZE || 32 * t >= 33 * s)
    ensures Class(SearchSize(s)) <= Class(t)
  {
    hide Class, Log2, Pow2, FlsSizeT;
    if s >= SMALL_BLOCK_SIZE {
      RoundBounds(s);
      FlsSizeTIsLog2(s);
    }
    ClassMonotone(SearchSize(s), t);
  }

  lemma DivShift(x: int, p: int)
    requires x >= 0 && p > 0
    ensures (x + p) / p == x / p + 1
  {
    var q := x / p;
    DivBounds(x, p);
    DivUnique(x + p, p, q + 1);
  }

  // tlsf_add_pool rejects sizes above block_size_max but not block_size_max
  // itself, which maps one row past the table: the only accepted pool size
  // that is not filed inside it.
  predicate PoolSizeAccepted(poolBytes: nat) {
    !(poolBytes < BLOCK_SIZE_MIN || poolBytes > BLOCK_SIZE_MAX)
  }

  lemma AcceptedPoolIsFiledIff(poolBytes: nat)
    requires PoolSizeAccepted(poolBytes)
    ensures Class(poolBytes) < CLASS_COUNT <==> poolBytes != BLOCK_SIZE_MAX
    ensures MappingInsert(BLOCK_SIZE_MAX).0 == FL_INDEX_COUNT
  {
    MappingInsertIsClass(poolBytes);
    Pow2Of32();
    Log2Unique(BLOCK_SIZE_MAX, 32);
    FlsSizeTIsLog2(BLOCK_SIZE_MAX);
  }
}
