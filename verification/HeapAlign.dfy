// tlsf_memalign: the aligned address inside a larger block, the bound on the
// gap before it, and the call on the abstract heap.
module HeapAlign {
  import opened Param
  import opened Arith
  import opened SizeClass

  const GAP_MINIMUM := 32   // sizeof(block_header_t)
  const TOP_ALIGNMENT := 0x8000_0000_0000_0000

  function Max(a: int, b: int): int { if a > b then a else b }

  // The request memalign searches for: room for the block, the alignment and a
  // leading free block.
  function AlignedRequest(align: nat, size: nat): nat
    requires align > 0
  {
    var adjust := AdjustRequestSize(size, ALIGN_SIZE);
    var sizeWithGap := AdjustRequestSize((adjust + align + GAP_MINIMUM) % SIZE_T_RANGE, align);
    if adjust != 0 && align > ALIGN_SIZE then sizeWithGap else adjust
  }

  // Where the aligned payload starts, given where the found block's starts.
  function AlignedPointer(ptr: nat, align: nat): nat
    requires align > 0
  {
    var aligned := AlignUp(ptr, align);
    var gap := (aligned - ptr) % SIZE_T_RANGE;
    if 0 < gap < GAP_MINIMUM then
      AlignUp((aligned + Max(GAP_MINIMUM - gap, align)) % SIZE_T_RANGE, align)
    else aligned
  }

  // The gap before it, as a size_t.
  function Gap(ptr: nat, align: nat): (gap: nat)
    requires align > 0
  {
    (AlignedPointer(ptr, align) - ptr) % SIZE_T_RANGE
  }

  // The powers of two that a size_t can hold.
  ghost predicate Alignment(align: int) {
    exists k: nat :: k < 64 && align == Pow2(k)
  }

  // The power-of-two assertion of align_up and align_ptr.
  lemma AlignmentTest(align: int)
    ensures Alignment(align) ==> align >= 1 && BitAnd(align, align - 1) == 0
    ensures BitAnd(ALIGN_SIZE, ALIGN_SIZE - 1) == 0
  {
    if Alignment(align) {
      var k: nat :| k < 64 && align == Pow2(k);
      PowerOfTwoTest(k);
    }
    PowerOfTwoTest(3);
    assert Pow2(3) == 8;
  }

  lemma AlignUpRounds(x: nat, align: nat)
    requires align > 0 && x + align <= SIZE_T_RANGE
    ensures x <= AlignUp(x, align) < x + align && AlignUp(x, align) % align == 0
  {
    var t := x + (align - 1);
    var q := t / align;
    assert t - t % align == q * align;
    MultipleOf(q, align);
  }

  lemma MultipleOf(q: nat, align: int)
    requires align > 0
    ensures (q * align) % align == 0
  {
    DivUnique(q * align, align, q);
  }

  lemma Divides8(align: int)
    requires Alignment(align)
    ensures align >= 16 || align == 1 || align == 2 || align == 4 || align == 8
    ensures align >= 8 ==> Multiple8(align)
  {
    var k: nat :| k < 64 && align == Pow2(k);
    if k >= 3 {
      if k > 3 { Pow2Monotone(4, k); }
      EightDividesPow2(k);
    }
    assert Pow2(0) == 1 && Pow2(1) == 2 && Pow2(2) == 4 && Pow2(3) == 8 && Pow2(4) == 16;
  }

  lemma EightDividesPow2(k: nat)
    requires k >= 3
    ensures Pow2(k) % 8 == 0
  {
    assert Pow2(k) == 2 * Pow2(k - 1);
    assert Pow2(k - 1) == 2 * Pow2(k - 2);
    assert Pow2(k - 2) == 2 * Pow2(k - 3);
  }

  lemma AlignmentBound(align: int)
    requires Alignment(align)
    ensures 1 <= align <= TOP_ALIGNMENT && (align < TOP_ALIGNMENT ==> align <= 0x4000_0000_0000_0000)
  {
    var k: nat :| k < 64 && align == Pow2(k);
    Pow2Is63();
    assert Pow2(63) == 2 * Pow2(62);
    hide Pow2;
    if k < 63 { Pow2Monotone(k, 62); }
  }

  lemma AlignedIs8Aligned(x: int, align: int)
    requires align > 0 && Multiple8(align) && x % align == 0 && x >= 0
    ensures Multiple8(x)
  {
    var q, e := x / align, align / 8;
    QuotientRest(x, align);
    QuotientRest(align, 8);
    assert x == q * (8 * e) by { assert align == 8 * e; }
    Eightfold(q, e);
  }

  lemma Eightfold(q: int, e: int)
    ensures Multiple8(q * (8 * e))
  {
    var m := q * e;
    assert q * (8 * e) == 8 * m;
    EightTimes(m);
  }

  lemma EightTimes(m: int)
    ensures Multiple8(8 * m)
  {
  }

  // The gap before the aligned payload is zero or a legal leading block plus
  // its header, and never more than align + 24.
  lemma GapBounds(ptr: nat, align: nat)
    requires Alignment(align) && Multiple8(ptr)
    requires ptr + align + 56 <= SIZE_T_RANGE
    ensures AlignedPointer(ptr, align) % align == 0
    ensures Multiple8(AlignedPointer(ptr, align) - ptr)
    ensures AlignedPointer(ptr, align) == ptr
         || GAP_MINIMUM <= AlignedPointer(ptr, align) - ptr <= align + 24
    ensures align <= ALIGN_SIZE ==> AlignedPointer(ptr, align) == ptr
    ensures Gap(ptr, align) == AlignedPointer(ptr, align) - ptr
  {
    hide AlignedPointer, Multiple8;
    Divides8(align);
    if align <= 8 {
      SmallPointer(ptr, align);
      GapIs8Aligned(ptr, ptr);
    } else {
      WideGapBounds(ptr, align);
      AlignedIs8Aligned(AlignedPointer(ptr, align), align);
      GapIs8Aligned(AlignedPointer(ptr, align), ptr);
    }
    ModSmall(AlignedPointer(ptr, align) - ptr, SIZE_T_RANGE);
  }

  // Where an aligned payload may start in a block whose payload starts at ptr: there,
  // or after room for a leading block.
  ghost predicate AlignedPlace(ptr: int, align: nat, q: int) {
    align > 0 && q % align == 0 && (q == ptr || q >= ptr + GAP_MINIMUM)
  }

  // The aligned pointer is the lowest such place.
  lemma AlignedIsLowest(ptr: nat, align: nat, q: nat)
    requires Alignment(align) && Multiple8(ptr)
    requires ptr + align + 56 <= SIZE_T_RANGE || (align <= ALIGN_SIZE && ptr + align <= SIZE_T_RANGE)
    ensures align > 0 && AlignedPlace(ptr, align, AlignedPointer(ptr, align))
    ensures AlignedPlace(ptr, align, q) ==> AlignedPointer(ptr, align) <= q
  {
    hide AlignedPointer, Multiple8;
    Divides8(align);
    if align <= ALIGN_SIZE {
      SmallPointer(ptr, align);
    } else {
      GapBounds(ptr, align);
      if AlignedPlace(ptr, align, q) { WideIsLowest(ptr, align, q); }
    }
  }

  lemma WideIsLowest(ptr: nat, align: nat, q: nat)
    requires Alignment(align) && align >= 16 && Multiple8(align) && Multiple8(ptr)
    requires ptr + align + 56 <= SIZE_T_RANGE && AlignedPlace(ptr, align, q)
    ensures AlignedPointer(ptr, align) <= q
  {
    hide AlignUp, Multiple8;
    AlignUpRounds(ptr, align);
    var aligned := AlignUp(ptr, align);
    ModSmall(aligned - ptr, SIZE_T_RANGE);
    MultipleAfter(aligned, q, align);
    if 0 < aligned - ptr < GAP_MINIMUM {
      AlignedIs8Aligned(aligned, align);
      SmallGap(aligned, ptr);
      if GAP_MINIMUM - (aligned - ptr) <= align {
        NextByAlignment(aligned, align);
      } else {
        AlignmentAbove16(align);
        Skip16(aligned);
        MultipleAfter(aligned + 16, q, align);
      }
    }
  }

  // Multiples of the alignment are that far apart.
  lemma MultipleAfter(x: nat, q: nat, align: nat)
    requires align > 0 && x % align == 0 && q % align == 0
    ensures q > x - align ==> q >= x
    ensures q > x ==> q >= x + align
  {
    QuotientRest(x, align);
    QuotientRest(q, align);
    var i, j := x / align, q / align;
    if j < i { MulMonotone(j + 1, i, align); }
    if i < j { MulMonotone(i + 1, j, align); }
    if j <= i { MulMonotone(j, i, align); }
    if i <= j { MulMonotone(i, j, align); }
  }

  lemma WideGapBounds(ptr: nat, align: nat)
    requires Alignment(align) && align >= 16 && Multiple8(align) && Multiple8(ptr)
    requires ptr + align + 56 <= SIZE_T_RANGE
    ensures AlignedPointer(ptr, align) % align == 0
    ensures AlignedPointer(ptr, align) == ptr
         || GAP_MINIMUM <= AlignedPointer(ptr, align) - ptr <= align + 24
  {
    AlignUpRounds(ptr, align);
    var aligned := AlignUp(ptr, align);
    ModSmall(aligned - ptr, SIZE_T_RANGE);
    if 0 < aligned - ptr < GAP_MINIMUM {
      AlignedIs8Aligned(aligned, align);
      SmallGap(aligned, ptr);
      NextAligned(aligned, aligned - ptr, align);
    }
  }

  lemma SmallGap(x: int, y: int)
    requires Multiple8(x) && Multiple8(y) && 0 < x - y < 32
    ensures x - y == 8 || x - y == 16 || x - y == 24
  {
  }

  lemma GapIs8Aligned(x: int, y: int)
    requires Multiple8(x) && Multiple8(y)
    ensures Multiple8(x - y)
  {
  }

  // A gap that is too small moves on to the next aligned address (two further
  // for a gap of 8 under alignment 16).
  lemma NextAligned(aligned: nat, gap: nat, align: nat)
    requires Alignment(align) && align >= 16 && aligned % align == 0
    requires gap == 8 || gap == 16 || gap == 24
    requires 0 < gap < GAP_MINIMUM && gap < align
    requires aligned + align + 32 <= SIZE_T_RANGE
    ensures var q := AlignUp((aligned + Max(GAP_MINIMUM - gap, align)) % SIZE_T_RANGE, align);
      q % align == 0 && GAP_MINIMUM <= q - aligned + gap <= align + 24
  {
    if GAP_MINIMUM - gap <= align {
      NextByAlignment(aligned, align);
    } else {
      AlignmentAbove16(align);
      Skip16(aligned);
    }
  }

  lemma NextByAlignment(aligned: nat, align: nat)
    requires Alignment(align) && aligned % align == 0 && aligned + align < SIZE_T_RANGE
    ensures AlignUp((aligned + align) % SIZE_T_RANGE, align) == aligned + align
    ensures (aligned + align) % align == 0
  {
    ModSmall(aligned + align, SIZE_T_RANGE);
    NextMultiple(aligned, align);
    TopMultiple(aligned + align, align);
    AlignUpFixed(aligned + align, aligned, align);
  }

  // Below 2^64 there is always room for one more alignment above a multiple.
  lemma TopMultiple(x: nat, align: nat)
    requires Alignment(align) && x % align == 0 && x < SIZE_T_RANGE
    ensures x + align <= SIZE_T_RANGE
  {
    var k: nat :| k < 64 && align == Pow2(k);
    TopPower(k);
    hide Pow2;
    QuotientRest(x, align);
    RoomAbove(x / align, Pow2(64 - k), align);
  }

  lemma TopPower(k: nat)
    requires k <= 64
    ensures Pow2(64 - k) * Pow2(k) == SIZE_T_RANGE
  {
    Pow2Sum(64 - k, k);
    Pow2Is63();
    assert Pow2(64) == 2 * Pow2(63);
  }

  lemma RoomAbove(q: int, m: int, align: int)
    requires align > 0 && q * align < m * align
    ensures q * align + align <= m * align
  {
    if q >= m {
      MulMonotone(m, q, align);
    } else {
      MulMonotone(q + 1, m, align);
    }
  }

  lemma NextMultiple(y: nat, align: nat)
    requires align > 0 && y % align == 0
    ensures (y + align) % align == 0
  {
    DivShift(y, align);
    var q := y / align;
    assert y == q * align;
    MultipleOf(q + 1, align);
    assert (q + 1) * align == y + align;
  }

  lemma Skip16(aligned: nat)
    requires aligned % 16 == 0 && aligned + 40 <= SIZE_T_RANGE
    ensures AlignUp((aligned + 24) % SIZE_T_RANGE, 16) == aligned + 32
  {
  }

  lemma AlignmentAbove16(align: int)
    requires Alignment(align) && 16 <= align < 32
    ensures align == 16
  {
    var k: nat :| k < 64 && align == Pow2(k);
    assert Pow2(4) == 16 && Pow2(5) == 32;
    if k >= 5 { Pow2Monotone(5, k); }
    if k <= 3 { Pow2Monotone(k, 3); }
  }

  lemma SmallAlignment(ptr: nat, align: nat)
    requires Multiple8(ptr) && ptr + align <= SIZE_T_RANGE
    requires align == 1 || align == 2 || align == 4 || align == 8
    ensures AlignUp(ptr, align) == ptr
  {
    var q := ptr / 8;
    assert ptr == 8 * q;
    hide AlignUp, Multiple8;
    var times := if align == 1 then 8 * q else if align == 2 then 4 * q else if align == 4 then 2 * q else q;
    AlignUpOfMultiple(ptr, times, align);
  }

  // Block payloads are aligned to 8 already.
  lemma SmallPointer(ptr: nat, align: nat)
    requires Alignment(align) && align <= ALIGN_SIZE && Multiple8(ptr) && ptr + align <= SIZE_T_RANGE
    ensures AlignedPointer(ptr, align) == ptr && Gap(ptr, align) == 0 && ptr % align == 0
  {
    Divides8(align);
    AlignUpRounds(ptr, align);
    SmallAlignment(ptr, align);
    hide AlignUp, Multiple8;
  }

  // A multiple of the alignment is aligned already.
  lemma AlignUpOfMultiple(x: nat, q: nat, align: nat)
    requires align > 0 && x == q * align && x + align <= SIZE_T_RANGE
    ensures AlignUp(x, align) == x
  {
    DivUnique(x + (align - 1), align, q);
  }

  // An aligned address plus the alignment is aligned already.
  lemma AlignUpFixed(x: nat, y: nat, align: nat)
    requires align > 0 && y % align == 0 && x == y + align && x + align <= SIZE_T_RANGE
    ensures AlignUp(x, align) == x
  {
    var q := y / align;
    assert y == q * align;
    assert (q + 1) * align == x;
    AlignUpOfMultiple(x, q + 1, align);
  }

  // Under the alignment 2^63 the only aligned addresses are 0 and 2^63.
  lemma TopGap(ptr: nat)
    requires Multiple8(ptr) && 16 < ptr && ptr + 32 <= SIZE_T_RANGE
    ensures AlignedPointer(ptr, TOP_ALIGNMENT)
         == if ptr == TOP_ALIGNMENT || ptr + GAP_MINIMUM <= TOP_ALIGNMENT then TOP_ALIGNMENT else 0
    ensures Gap(ptr, TOP_ALIGNMENT)
         == if ptr == TOP_ALIGNMENT || ptr + GAP_MINIMUM <= TOP_ALIGNMENT then TOP_ALIGNMENT - ptr
            else SIZE_T_RANGE - ptr
    ensures Multiple8(Gap(ptr, TOP_ALIGNMENT))
    ensures Gap(ptr, TOP_ALIGNMENT) == 0 || Gap(ptr, TOP_ALIGNMENT) >= GAP_MINIMUM
  {
    hide AlignUp, Multiple8;
    TopAlignUp(ptr);
    TopAlignUp(0);
    assert (0 - ptr) % SIZE_T_RANGE == SIZE_T_RANGE - ptr;
    TopGap8(ptr);
  }

  lemma TopAlignUp(x: nat)
    requires x < SIZE_T_RANGE
    ensures AlignUp(x, TOP_ALIGNMENT) == if 0 < x <= TOP_ALIGNMENT then TOP_ALIGNMENT else 0
  {
    if x == 0 {
      ModSmall(TOP_ALIGNMENT - 1, SIZE_T_RANGE);
      ModSmall(TOP_ALIGNMENT - 1, TOP_ALIGNMENT);
    } else if x <= TOP_ALIGNMENT {
      ModSmall(x + (TOP_ALIGNMENT - 1), SIZE_T_RANGE);
      DivUnique(x + (TOP_ALIGNMENT - 1), TOP_ALIGNMENT, 1);
    } else {
      DivUnique(x + (TOP_ALIGNMENT - 1), SIZE_T_RANGE, 1);
      ModSmall(x - TOP_ALIGNMENT - 1, TOP_ALIGNMENT);
    }
  }

  lemma TopGap8(ptr: int)
    requires Multiple8(ptr)
    ensures Multiple8(TOP_ALIGNMENT - ptr) && Multiple8(SIZE_T_RANGE - ptr)
    ensures TOP_ALIGNMENT - GAP_MINIMUM < ptr < TOP_ALIGNMENT ==> ptr + 8 <= TOP_ALIGNMENT
  {
  }

  // The request with its gap is either refused or met in full, except for the
  // alignment 2^63, where align_up wraps to zero and asks for 24 bytes.
  lemma GapRequestHonouredIff(k: nat, size: nat)
    requires 3 < k < 64 && AdjustRequestSize(size, ALIGN_SIZE) != 0
    ensures var want := AdjustRequestSize(size, ALIGN_SIZE) + Pow2(k) + GAP_MINIMUM;
      (AlignedRequest(Pow2(k), size) == 0 || AlignedRequest(Pow2(k), size) >= want) <==> k != 63
  {
    hide Pow2, AlignUp, AdjustRequestSize, AlignedRequest;
    AdjustIsAligned(size);
    var adjust := AdjustRequestSize(size, ALIGN_SIZE);
    AlignmentRange(k);
    WideRequest(Pow2(k), size);
    if k < 63 {
      GapRequestMet(adjust, Pow2(k));
    } else {
      WrapAt63(adjust);
    }
  }

  // Below 2^63, which size memalign searches for: up to the alignment 8 that of the
  // request; else the least multiple of the alignment that holds the adjusted
  // request, the alignment and a leading block, none when that is too large.
  lemma AlignedRequestIs(align: nat, size: nat)
    requires Alignment(align) && align < TOP_ALIGNMENT
    ensures align > 0
    ensures align <= ALIGN_SIZE || AdjustRequestSize(size, ALIGN_SIZE) == 0 ==>
      AlignedRequest(align, size) == AdjustRequestSize(size, ALIGN_SIZE)
    ensures align > ALIGN_SIZE && AdjustRequestSize(size, ALIGN_SIZE) != 0 ==>
      var want := AdjustRequestSize(size, ALIGN_SIZE) + align + GAP_MINIMUM;
      exists m :: LeastMultiple(want, align, m) && AlignedRequest(align, size) == if m < BLOCK_SIZE_MAX then m else 0
  {
    AlignmentBound(align);
    Divides8(align);
    AdjustIsAligned(size);
    var s := AdjustRequestSize(size, ALIGN_SIZE);
    hide AdjustRequestSize, AlignUp;
    if align > ALIGN_SIZE && s != 0 {
      WideRequest(align, size);
      ModSmall(s + align + GAP_MINIMUM, SIZE_T_RANGE);
      WideIsRounded(s + align + GAP_MINIMUM, align);
    }
  }

  ghost predicate LeastMultiple(x: int, align: int, m: int) {
    align > 0 && m % align == 0 && x <= m < x + align
  }

  lemma WideIsRounded(x: nat, align: nat)
    requires align > 0 && BLOCK_SIZE_MIN < x && x + align <= SIZE_T_RANGE
    ensures LeastMultiple(x, align, AlignUp(x, align))
    ensures AdjustRequestSize(x, align) == if AlignUp(x, align) < BLOCK_SIZE_MAX then AlignUp(x, align) else 0
  {
    AlignUpRounds(x, align);
  }

  lemma AlignmentRange(k: nat)
    requires 3 < k < 64
    ensures 16 <= Pow2(k) && (k < 63 ==> Pow2(k) <= 0x4000_0000_0000_0000)
    ensures k == 63 ==> Pow2(k) == TOP_ALIGNMENT
  {
    Pow2Is63();
    assert Pow2(4) == 16 && Pow2(63) == 2 * Pow2(62);
    hide Pow2;
    Pow2Monotone(4, k);
    if k < 63 { Pow2Monotone(k, 62); }
  }

  lemma WideRequest(align: nat, size: nat)
    requires align >= 16 && AdjustRequestSize(size, ALIGN_SIZE) != 0
    ensures AlignedRequest(align, size)
         == AdjustRequestSize((AdjustRequestSize(size, ALIGN_SIZE) + align + GAP_MINIMUM) % SIZE_T_RANGE, align)
  {
    hide AdjustRequestSize;
  }

  lemma GapRequestMet(adjust: nat, align: nat)
    requires adjust < BLOCK_SIZE_MAX && 0 < align <= 0x4000_0000_0000_0000
    ensures var want := adjust + align + GAP_MINIMUM;
      AdjustRequestSize(want % SIZE_T_RANGE, align) == 0 || AdjustRequestSize(want % SIZE_T_RANGE, align) >= want
  {
    hide AdjustRequestSize;
    ModSmall(adjust + align + GAP_MINIMUM, SIZE_T_RANGE);
    RequestMet(adjust + align + GAP_MINIMUM, align);
  }

  lemma RequestMet(want: nat, align: nat)
    requires align > 0 && want + align <= SIZE_T_RANGE
    ensures AdjustRequestSize(want, align) == 0 || AdjustRequestSize(want, align) >= want
  {
    AlignUpRounds(want, align);
  }

  lemma Pow2Is63()
    ensures Pow2(63) == TOP_ALIGNMENT
  {
    Pow2Of32();
    Pow2Sum(32, 31);
    assert Pow2(32) == 2 * Pow2(31);
  }

  lemma WrapAt63(adjust: nat)
    requires adjust < BLOCK_SIZE_MAX
    ensures AdjustRequestSize((adjust + TOP_ALIGNMENT + GAP_MINIMUM) % SIZE_T_RANGE, TOP_ALIGNMENT) == BLOCK_SIZE_MIN
  {
  }
}
