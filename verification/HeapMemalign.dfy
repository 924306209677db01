// The tlsf_memalign call on the abstract heap.
module HeapMemalign {
  import opened Param
  import opened Arith
  import opened SizeClass
  import opened Heap
  import opened HeapOps
  import opened HeapCalls
  import opened HeapAlign

  // block_trim_free_leading: file the first gap - 8 bytes, go on with the rest.
  ghost function TrimLeading(st: State, a: int, gap: int): (State, int)
    requires a in st.next && |st.lists| == CLASS_COUNT
  {
    if CanSplit(st, a, gap) then (File(Cut(st, a, a + gap), a), a + gap) else (st, a)
  }

  ghost function Memalign(g: Geometry, st: State, align: nat, size: nat): (State, int)
    requires Inv(g, st) && Alignment(align)
  {
    WantedIsAligned(align, size);
    var want := AlignedRequest(align, size);
    var c := Found(st.lists, want);
    if c == CLASS_COUNT then (st, 0)
    else
      TakeHolding(g, st, want);
      TakeNonNegative(g, st, c);
      AlignedFrom(Take(st, c), st.lists[c][0], align, AdjustRequestSize(size, ALIGN_SIZE))
  }

  // What follows once block a has been taken from its list.
  ghost function AlignedFrom(st: State, a: nat, align: nat, s: nat): (State, int)
    requires a in st.next && |st.lists| == CLASS_COUNT && align > 0
  {
    var gap := Gap(a + 16, align);
    if gap == 0 then (Use(TrimFree(st, a, s), a), a + 16)
    else
      var (t, r) := TrimLeading(st, a, gap);
      (Use(TrimFree(t, r, s), r), r + 16)
  }

  // The header of the block handed out: past the gap, unless the block found is
  // too small for it.
  ghost function Place(st: State, a: nat, align: nat): int
    requires a in st.next && align > 0
  {
    if Gap(a + 16, align) != 0 && CanSplit(st, a, Gap(a + 16, align)) then a + Gap(a + 16, align) else a
  }

  lemma TakeNonNegative(g: Geometry, st: State, c: int)
    requires Inv(g, st) && 0 <= c < CLASS_COUNT && st.lists[c] != []
    ensures st.lists[c][0] in st.next && st.lists[c][0] >= 0
  {
    assert InClass(st.next, st.lists[c][0], c);
  }

  // What the searched size leaves room for: block, alignment and leading block;
  // nothing in particular for the alignment 2^63.
  ghost predicate Asked(align: nat, s: nat, want: nat) {
    && s >= BLOCK_SIZE_MIN && want >= BLOCK_SIZE_MIN
    && (align < TOP_ALIGNMENT ==> want >= s && (align > ALIGN_SIZE ==> want >= s + align + GAP_MINIMUM))
  }

  lemma WantedIsAligned(align: nat, size: nat)
    requires Alignment(align)
    ensures 1 <= align <= TOP_ALIGNMENT
    ensures Multiple8(AlignedRequest(align, size)) && AlignedRequest(align, size) < BLOCK_SIZE_MAX
    ensures Multiple8(AdjustRequestSize(size, ALIGN_SIZE))
    ensures AlignedRequest(align, size) != 0 ==>
      Asked(align, AdjustRequestSize(size, ALIGN_SIZE), AlignedRequest(align, size))
    ensures AdjustRequestSize(size, ALIGN_SIZE) == 0 ==> AlignedRequest(align, size) == 0
  {
    AdjustIsAligned(size);
    AlignmentBound(align);
    Divides8(align);
    var s := AdjustRequestSize(size, ALIGN_SIZE);
    hide AdjustRequestSize, AlignUp;
    if s != 0 && align > ALIGN_SIZE {
      WideRequest(align, size);
      hide Multiple8, AlignedRequest;
      WideWanted(align, s);
    }
  }

  lemma WideWanted(align: nat, s: nat)
    requires 16 <= align <= TOP_ALIGNMENT && Multiple8(align) && BLOCK_SIZE_MIN <= s < BLOCK_SIZE_MAX
    requires align < TOP_ALIGNMENT ==> align <= 0x4000_0000_0000_0000
    ensures var want := AdjustRequestSize((s + align + GAP_MINIMUM) % SIZE_T_RANGE, align);
      Multiple8(want) && want < BLOCK_SIZE_MAX && (want != 0 ==> Asked(align, s, want))
  {
    hide AdjustRequestSize, Multiple8;
    if align == TOP_ALIGNMENT {
      WrapAt63(s);
      Smallest8();
    } else {
      ModSmall(s + align + GAP_MINIMUM, SIZE_T_RANGE);
      RequestMet(s + align + GAP_MINIMUM, align);
      AdjustedIsMultiple(s + align + GAP_MINIMUM, align);
    }
  }

  lemma Smallest8()
    ensures Multiple8(BLOCK_SIZE_MIN) && Multiple8(0)
  {
  }

  lemma AdjustedIsMultiple(x: nat, align: nat)
    requires align > 0 && Multiple8(align) && x + align <= SIZE_T_RANGE
    ensures Multiple8(AdjustRequestSize(x, align)) && AdjustRequestSize(x, align) < BLOCK_SIZE_MAX
    ensures AdjustRequestSize(x, align) != 0 ==> AdjustRequestSize(x, align) >= BLOCK_SIZE_MIN
  {
    hide AlignUp, Multiple8;
    Smallest8();
    if x != 0 {
      AlignUpRounds(x, align);
      AlignedIs8Aligned(AlignUp(x, align), align);
    }
  }

  // The block found for a non-zero gap can always give up its leading part and
  // still hold the whole request.
  lemma LeadingFits(a: nat, size: int, align: nat, s: nat, want: nat)
    requires Alignment(align) && 0 < align < TOP_ALIGNMENT && Multiple8(a)
    requires size >= want && Asked(align, s, want) && a + size + 24 <= SIZE_T_RANGE
    ensures var q := AlignedPointer(a + 16, align);
      && q % align == 0 && Multiple8(q - (a + 16)) && Gap(a + 16, align) == q - (a + 16)
      && (q != a + 16 ==> a + 32 <= q - 16 && q - 16 + s + 8 <= a + size)
  {
    hide AlignedPointer, Gap;
    AlignmentBound(align);
    Offset16(a);
    if align > ALIGN_SIZE {
      GapBounds(a + 16, align);
    } else {
      SmallPointer(a + 16, align);
      GapIs8Aligned(a + 16, a + 16);
    }
  }

  // A gap is none or enough for a leading block.
  lemma GapLegal(a: nat, size: int, align: nat, s: nat, want: nat)
    requires Alignment(align) && align > 0 && Multiple8(a) && 0 < a
    requires size >= want && Asked(align, s, want) && a + size + 24 <= SIZE_T_RANGE
    ensures LegalGap(Gap(a + 16, align))
  {
    hide AlignedPointer, Gap;
    AlignmentBound(align);
    if align < TOP_ALIGNMENT {
      LeadingFits(a, size, align, s, want);
    } else {
      Offset16(a);
      TopGap(a + 16);
    }
  }

  ghost predicate LegalGap(gap: nat) {
    Multiple8(gap) && (gap == 0 || gap >= GAP_MINIMUM)
  }

  lemma Offset16(a: int)
    requires Multiple8(a)
    ensures Multiple8(a + 16)
  {
  }

  lemma LeadingCut(g: Geometry, st: State, a: int, r: int)
    requires Holding(g, st, a) && st.next[a] !in st.free && Coalesced(st.next, st.free)
    requires CanCut(g.last, st.next, a, r) && Multiple8(r)
    ensures var t := File(Cut(st, a, r), a);
      Holding(g, t, r) && t.next[r] !in t.free && t.next[r] == st.next[a] && r !in st.next
      && LiveIn(t.next, t.free) == LiveIn(st.next, st.free)
  {
    CutHolding(g, st, a, r);
    CutCoalesced(g.last, st.next, st.prev, st.free, a, r);
    assert {a, r} == {r, a};
    FileHolding(g, Cut(st, a, r), r, a);
    CutLive(st.next, st.free, a, r);
  }

  lemma CutLive(next: Links, free: set<int>, a: int, r: int)
    requires a in next && a in free && r !in next
    ensures LiveIn(SplitNext(next, a, r), free + {r}) == LiveIn(next, free)
  {
  }

  // From a block in hand, memalign hands out the block at its place, of the
  // requested size if there is room for it, and keeps everything else.
  lemma AlignedFromPlaced(g: Geometry, st: State, a: nat, align: nat, s: nat)
    requires Holding(g, st, a) && st.next[a] !in st.free && Coalesced(st.next, st.free)
    requires align > 0 && LegalGap(Gap(a + 16, align)) && Multiple8(s) && s >= BLOCK_SIZE_MIN
    ensures var (t, p) := AlignedFrom(st, a, align, s); var r := Place(st, a, align);
      && p == r + 16 && a <= r < st.next[a] && Inv(g, t) && Joins(st, t, r)
      && (r + 8 + s <= st.next[a] ==> HandedOut(st, t, r, s))
  {
    hide Tiled, Filed, Coalesced, CoalescedBut, LiveIn, Gap;
    BlockBounds(g, st, a);
    var gap := Gap(a + 16, align);
    if gap != 0 && CanSplit(st, a, gap) {
      CutsAt(g, st, a, gap);
      LeadingHandsOut(g, st, a, a + gap, s);
    } else {
      UseTrimmed(g, st, a, s);
    }
  }

  lemma CutsAt(g: Geometry, st: State, a: int, gap: int)
    requires Physical(g, st) && a in st.next && a != g.last && CanSplit(st, a, gap)
    requires Multiple8(gap) && gap >= GAP_MINIMUM
    ensures CanCut(g.last, st.next, a, a + gap) && Multiple8(a + gap)
  {
    BlockBounds(g, st, a);
    hide Physical;
    Sum8(a, gap);
  }

  lemma Sum8(x: int, y: int)
    requires Multiple8(x) && Multiple8(y)
    ensures Multiple8(x + y)
  {
  }

  lemma LeadingHandsOut(g: Geometry, st: State, a: int, r: int, s: nat)
    requires Holding(g, st, a) && st.next[a] !in st.free && Coalesced(st.next, st.free)
    requires CanCut(g.last, st.next, a, r) && Multiple8(r)
    requires Multiple8(s) && s >= BLOCK_SIZE_MIN
    ensures var t := Use(TrimFree(File(Cut(st, a, r), a), r, s), r);
      && Inv(g, t) && Joins(st, t, r) && (r + 8 + s <= st.next[a] ==> HandedOut(st, t, r, s))
  {
    hide Tiled, Filed, Coalesced, CoalescedBut, LiveIn;
    LeadingCut(g, st, a, r);
    UseTrimmed(g, File(Cut(st, a, r), a), r, s);
  }

  // What holds between the leading trim and the rest of the call.
  lemma LeadingReady(g: Geometry, st: State, a: nat, gap: nat)
    requires Holding(g, st, a) && st.next[a] !in st.free && Coalesced(st.next, st.free)
    requires LegalGap(gap) && gap != 0
    ensures ReadyAfter(g, st, a, gap)
  {
    hide Tiled, Filed, Coalesced, CoalescedBut;
    BlockBounds(g, st, a);
    if CanSplit(st, a, gap) {
      CutsAt(g, st, a, gap);
      LeadingCut(g, st, a, a + gap);
    }
  }

  ghost predicate ReadyAfter(g: Geometry, st: State, a: int, gap: int)
    requires a in st.next && |st.lists| == CLASS_COUNT
  {
    var (t, r) := TrimLeading(st, a, gap);
    r in t.next && r > 0 && Holding(g, t, r) && t.next[r] !in t.free
  }

  // Below 2^63 the place is the aligned address, with room for the request.
  lemma PlacedAt(g: Geometry, st: State, a: nat, align: nat, s: nat, want: nat)
    requires Physical(g, st) && a in st.next && a != g.last && Size(st.next, a) >= want
    requires Alignment(align) && 0 < align < TOP_ALIGNMENT && Asked(align, s, want)
    ensures var r := Place(st, a, align);
      (r + 16) % align == 0 && r + 8 + s <= st.next[a] && r + 16 == AlignedPointer(a + 16, align)
  {
    hide Tiled, AlignedPointer, Gap;
    BlockBounds(g, st, a);
    LeadingFits(a, Size(st.next, a), align, s, want);
  }

  lemma BlockBounds(g: Geometry, st: State, a: int)
    requires Physical(g, st) && a in st.next && a != g.last
    ensures Multiple8(a) && 0 < a && a + BLOCK_HEADER_SIZE <= st.next[a] <= g.last
    ensures a + Size(st.next, a) + 24 <= SIZE_T_RANGE
  {
    assert st.next[a] in st.next;
  }

  // The block memalign finds, and all that its call needs to know about it.
  lemma MemalignFrom(g: Geometry, st: State, align: nat, size: nat) returns (c: int, a: nat, s: nat, want: nat)
    requires Inv(g, st) && Alignment(align) && 0 < align
    requires AlignedRequest(align, size) < BLOCK_SIZE_MAX
    requires Found(st.lists, AlignedRequest(align, size)) < CLASS_COUNT
    ensures s == AdjustRequestSize(size, ALIGN_SIZE) && want == AlignedRequest(align, size)
    ensures c == Found(st.lists, want) && 0 <= c < CLASS_COUNT && st.lists[c] != [] && a == st.lists[c][0]
    ensures a in st.free && a in st.next && a != g.last && a > 0 && c == ClassOf(st, a)
    ensures Holding(g, Take(st, c), a) && st.next[a] !in st.free && Size(st.next, a) >= want
    ensures Multiple8(s) && s >= BLOCK_SIZE_MIN && Asked(align, s, want) && LegalGap(Gap(a + 16, align))
    ensures Memalign(g, st, align, size) == AlignedFrom(Take(st, c), a, align, s)
  {
    hide Tiled, Filed, Coalesced, CoalescedBut, AlignedFrom, Gap, LegalGap;
    WantedIsAligned(align, size);
    s, want := AdjustRequestSize(size, ALIGN_SIZE), AlignedRequest(align, size);
    hide AlignedRequest, AdjustRequestSize;
    c := Found(st.lists, want);
    TakeHolding(g, st, want);
    TakeNonNegative(g, st, c);
    a := st.lists[c][0];
    BlockBounds(g, st, a);
    ClassInRange(g, st, a);
    GapLegal(a, Size(st.next, a), align, s, want);
  }

  lemma MemalignInv(g: Geometry, st: State, align: nat, size: nat)
    requires Inv(g, st) && Alignment(align)
    ensures Inv(g, Memalign(g, st, align, size).0)
    ensures Memalign(g, st, align, size).1 == 0 ==> Memalign(g, st, align, size).0 == st
  {
    hide Tiled, Filed, Coalesced, CoalescedBut, AlignedFrom, Gap, LegalGap, AlignedRequest;
    WantedIsAligned(align, size);
    if Found(st.lists, AlignedRequest(align, size)) < CLASS_COUNT {
      var c, a, s, want := MemalignFrom(g, st, align, size);
      AlignedFromPlaced(g, Take(st, c), a, align, s);
    }
  }

  // A pointer memalign returns names a block that was free or is cut from a free
  // one, and no other live block changes.
  lemma MemalignJoins(g: Geometry, st: State, align: nat, size: nat)
    requires Inv(g, st) && Alignment(align) && Memalign(g, st, align, size).1 != 0
    ensures var (t, p) := Memalign(g, st, align, size);
      Joins(st, t, p - 16) && p - 16 !in Live(st)
  {
    hide Tiled, Filed, Coalesced, CoalescedBut, AlignedFrom, Gap, LegalGap, AlignedRequest;
    WantedIsAligned(align, size);
    var c, a, s, want := MemalignFrom(g, st, align, size);
    AlignedFromPlaced(g, Take(st, c), a, align, s);
    ListsAside(Take(st, c), st);
    NotLive(g, st, a, Place(Take(st, c), a, align));
  }

  lemma NotLive(g: Geometry, st: State, a: int, r: int)
    requires Physical(g, st) && a in st.free && a in st.next && a <= r < st.next[a]
    ensures r !in Live(st)
  {
    NotLiveIn(st.next, st.free, a, r);
  }

  lemma NotLiveIn(next: Links, free: set<int>, a: int, r: int)
    requires Separate(next) && a in next && a in free && a <= r < next[a]
    ensures r !in LiveIn(next, free)
  {
  }

  // It is of the request's size and up to 24 bytes more, and a multiple of the
  // alignment, for every alignment below 2^63.
  lemma MemalignHandsOut(g: Geometry, st: State, align: nat, size: nat)
    requires Inv(g, st) && Alignment(align) && align < TOP_ALIGNMENT && Memalign(g, st, align, size).1 != 0
    ensures HandedOut(st, Memalign(g, st, align, size).0, Memalign(g, st, align, size).1 - 16,
                      AdjustRequestSize(size, ALIGN_SIZE))
    ensures align > 0 && Memalign(g, st, align, size).1 % align == 0
  {
    hide Tiled, Filed, Coalesced, CoalescedBut, AlignedFrom, Gap, LegalGap, AlignedRequest;
    WantedIsAligned(align, size);
    var c, a, s, want := MemalignFrom(g, st, align, size);
    AlignedFromPlaced(g, Take(st, c), a, align, s);
    PlacedAt(g, Take(st, c), a, align, s, want);
    ListsAside(Take(st, c), st);
  }

  // memalign gives up exactly when there is no size to search for or no free block
  // reaches it; HeapAlign.AlignedRequestIs says which size that is.
  lemma MemalignRefusal(g: Geometry, st: State, align: nat, size: nat)
    requires Inv(g, st) && Alignment(align)
    ensures align > 0
    ensures Memalign(g, st, align, size).1 == 0
       <==> AlignedRequest(align, size) == 0 || NoneReaches(st, AlignedRequest(align, size))
  {
    hide Tiled, Filed, Coalesced, CoalescedBut, AlignedFrom, Gap, LegalGap, AlignedRequest, NoneReaches;
    WantedIsAligned(align, size);
    FoundIff(g, st, AlignedRequest(align, size));
    if Found(st.lists, AlignedRequest(align, size)) < CLASS_COUNT {
      var c, a, s, want := MemalignFrom(g, st, align, size);
      AlignedFromPlaced(g, Take(st, c), a, align, s);
    }
  }

  // Below 2^63 the pointer is the lowest aligned place in the block found, the
  // first in the first list of blocks that reach the searched size.
  lemma MemalignPlaces(g: Geometry, st: State, align: nat, size: nat, q: nat)
    requires Inv(g, st) && Alignment(align) && align < TOP_ALIGNMENT && Memalign(g, st, align, size).1 != 0
    ensures AlignedRequest(align, size) < BLOCK_SIZE_MAX && Found(st.lists, AlignedRequest(align, size)) < CLASS_COUNT
    ensures var ptr := st.lists[Found(st.lists, AlignedRequest(align, size))][0] + 16;
      var p := Memalign(g, st, align, size).1;
      AlignedPlace(ptr, align, p) && (AlignedPlace(ptr, align, q) ==> p <= q)
  {
    hide Tiled, Filed, Coalesced, CoalescedBut, AlignedFrom, Gap, LegalGap, AlignedRequest;
    WantedIsAligned(align, size);
    var c, a, s, want := MemalignFrom(g, st, align, size);
    AlignedFromPlaced(g, Take(st, c), a, align, s);
    PlacedAt(g, Take(st, c), a, align, s, want);
    BlockBounds(g, st, a);
    Offset16(a);
    RoomForGap(a, Size(st.next, a), align, s, want);
    AlignedIsLowest(a + 16, align, q);
  }

  lemma RoomForGap(a: nat, size: int, align: nat, s: nat, want: nat)
    requires align < TOP_ALIGNMENT && Asked(align, s, want) && size >= want && a + size + 24 <= SIZE_T_RANGE
    ensures a + 16 + align + 56 <= SIZE_T_RANGE || align <= ALIGN_SIZE
  {
  }

  // ---- The alignment 2^63 ----

  // The block's payload starts at 2^63, or reaches far enough to both sides of it
  // to be cut there.
  ghost predicate TopInReach(st: State, a: int) {
    a in st.next && (a + 16 == TOP_ALIGNMENT || (a + 48 <= TOP_ALIGNMENT && TOP_ALIGNMENT + 24 <= st.next[a]))
  }

  // memalign then searches for 24 bytes. It hands out 2^63 if the block it finds
  // allows that, else the block where it stands; and the request is met exactly
  // when the block happens to have room for it.
  lemma TopAlignment(g: Geometry, st: State, size: nat)
    requires Inv(g, st) && (TopIsAlignment(); Memalign(g, st, TOP_ALIGNMENT, size).1 != 0)
    ensures Found(st.lists, BLOCK_SIZE_MIN) < CLASS_COUNT
    ensures (TopIsAlignment();
             var a := st.lists[Found(st.lists, BLOCK_SIZE_MIN)][0];
             var (t, p) := Memalign(g, st, TOP_ALIGNMENT, size);
             && a in st.next && p == (if TopInReach(st, a) then TOP_ALIGNMENT else a + 16)
             && (p % TOP_ALIGNMENT == 0 <==> TopInReach(st, a))
             && (HandedOut(st, t, p - 16, AdjustRequestSize(size, ALIGN_SIZE))
                 <==> p - 8 + AdjustRequestSize(size, ALIGN_SIZE) <= st.next[a]))
  {
    hide Tiled, Filed, Coalesced, CoalescedBut, AlignedFrom, Place, Gap, LegalGap, AlignedRequest, AdjustRequestSize;
    TopIsAlignment();
    WantedIsAligned(TOP_ALIGNMENT, size);
    var c, a, s, want := MemalignFrom(g, st, TOP_ALIGNMENT, size);
    WideRequest(TOP_ALIGNMENT, size);
    AdjustIsAligned(size);
    WrapAt63(s);
    AlignedFromPlaced(g, Take(st, c), a, TOP_ALIGNMENT, s);
    ListsAside(Take(st, c), st);
    TopPlace(g, Take(st, c), a);
    KeptWhole(Take(st, c), a, TOP_ALIGNMENT, s);
  }

  lemma TopIsAlignment()
    ensures Alignment(TOP_ALIGNMENT)
  {
    Pow2Is63();
  }

  lemma TopPlace(g: Geometry, st: State, a: nat)
    requires Physical(g, st) && a in st.next && a != g.last
    ensures Place(st, a, TOP_ALIGNMENT) == if TopInReach(st, a) then TOP_ALIGNMENT - 16 else a
    ensures (Place(st, a, TOP_ALIGNMENT) + 16) % TOP_ALIGNMENT == 0 <==> TopInReach(st, a)
  {
    hide Gap, AlignedPointer, Multiple8, Tiled;
    BlockBounds(g, st, a);
    Offset16(a);
    TopGap(a + 16);
    BetweenTops(a + 16);
  }

  lemma BetweenTops(x: int)
    requires 0 < x < SIZE_T_RANGE
    ensures x % TOP_ALIGNMENT == 0 <==> x == TOP_ALIGNMENT
  {
    if x < TOP_ALIGNMENT { ModSmall(x, TOP_ALIGNMENT); } else { DivUnique(x, TOP_ALIGNMENT, 1); }
  }

  // A block too small for the request is handed out whole.
  lemma KeptWhole(st: State, a: nat, align: nat, s: nat)
    requires a in st.next && |st.lists| == CLASS_COUNT && align > 0
    ensures var r := Place(st, a, align);
      r + 8 + s > st.next[a] ==> r in AlignedFrom(st, a, align, s).0.next
                                 && AlignedFrom(st, a, align, s).0.next[r] == st.next[a]
  {
    hide Gap;
  }

  // memalign honours every alignment but 2^63, and that one exactly when the
  // first block of 24 bytes or more allows it.
  lemma MemalignHonoursAlignmentIff(g: Geometry, st: State, k: nat, size: nat)
    requires Inv(g, st) && k < 64 && (PowerIsAlignment(k); Memalign(g, st, Pow2(k), size).1 != 0)
    ensures (PowerIsAlignment(k);
             Memalign(g, st, Pow2(k), size).1 % Pow2(k) == 0)
       <==> k != 63 || (Found(st.lists, BLOCK_SIZE_MIN) < CLASS_COUNT
                        && TopInReach(st, st.lists[Found(st.lists, BLOCK_SIZE_MIN)][0]))
  {
    hide Inv, Memalign, HandedOut;
    PowerIsAlignment(k);
    Pow2Is63();
    if k < 63 {
      Pow2Monotone(k, 63);
      MemalignHandsOut(g, st, Pow2(k), size);
    } else {
      TopAlignment(g, st, size);
    }
  }

  lemma PowerIsAlignment(k: nat)
    requires k < 64
    ensures Alignment(Pow2(k))
  {
  }
}
