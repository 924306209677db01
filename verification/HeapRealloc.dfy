// The tlsf_realloc call on the abstract heap.
module HeapRealloc {
  import opened Param
  import opened Arith
  import opened SizeClass
  import opened Heap
  import opened HeapOps
  import opened HeapCalls

  // block_trim_used: cut the tail off a used block and merge it forward.
  ghost function TrimUsed(st: State, a: int, s: int): State
    requires a in st.next && |st.lists| == CLASS_COUNT && (st.next[a] in st.free ==> st.next[a] in st.next)
  {
    if CanSplit(st, a, s) then File(MergeNext(Cut(st, a, a + s + 8), a + s + 8), a + s + 8) else st
  }

  // block_merge_next on a used block followed by a free one.
  ghost function Grow(st: State, a: int): State
    requires a in st.next && st.next[a] in st.next && |st.lists| == CLASS_COUNT
  {
    Join(Unfile(st, st.next[a]), a)
  }

  // The request is met where the block stands: it fits already, or fits
  // together with a free successor.
  ghost predicate InPlace(st: State, a: int, s: int)
    requires a in st.next && st.next[a] in st.next
  {
    s <= Size(st.next, a) || (st.next[a] in st.free && s <= Size(st.next, a) + Size(st.next, st.next[a]) + 8)
  }

  // Allocate, copy, free; unchanged when nothing can be allocated.
  ghost function Move(g: Geometry, st: State, a: int, size: nat): (State, int)
    requires Inv(g, st) && Freeable(g, st, a)
  {
    if Malloc(g, st, size).1 == 0 then (st, 0)
    else
      MoveFreeable(g, st, a, size);
      (Free(g, Malloc(g, st, size).0, a), Malloc(g, st, size).1)
  }

  ghost function Reshape(g: Geometry, st: State, a: int, s: int): State
    requires Inv(g, st) && Freeable(g, st, a)
    requires st.next[a] in st.next && InPlace(st, a, s)
  {
    if s > Size(st.next, a) then
      GrowUsed(g, st, a);
      TrimUsed(Grow(st, a), a, s)
    else TrimUsed(st, a, s)
  }

  // The non-NULL, non-zero branch of tlsf_realloc: header a, request size.
  ghost function Resize(g: Geometry, st: State, a: int, size: nat): (State, int)
    requires Inv(g, st) && Freeable(g, st, a)
  {
    NextIsBlock(g, st, a);
    if InPlace(st, a, AdjustRequestSize(size, ALIGN_SIZE)) then
      (Reshape(g, st, a, AdjustRequestSize(size, ALIGN_SIZE)), a + 16)
    else Move(g, st, a, size)
  }

  lemma NextIsBlock(g: Geometry, st: State, a: int)
    requires Physical(g, st) && a in st.next && a != g.last
    ensures st.next[a] in st.next
  {
  }

  // The moved block is still there to be freed after the allocation.
  lemma MoveFreeable(g: Geometry, st: State, a: int, size: nat)
    requires Inv(g, st) && Freeable(g, st, a) && Malloc(g, st, size).1 != 0
    ensures var (t, q) := Malloc(g, st, size);
      Inv(g, t) && Freeable(g, t, a) && t.next[a] == st.next[a] && a != q - 16
  {
    MallocInv(g, st, size);
    MallocHandsOut(g, st, size);
    StillFreeable(g, st, Malloc(g, st, size).0, Malloc(g, st, size).1 - 16, a,
                  AdjustRequestSize(size, ALIGN_SIZE));
  }

  // tlsf_realloc; address 0 stands for NULL.
  ghost function Realloc(g: Geometry, st: State, ptr: int, size: nat): (State, int)
    requires Inv(g, st) && (ptr != 0 ==> Freeable(g, st, ptr - 16))
  {
    hide Inv, Freeable;
    if ptr != 0 && size == 0 then (Free(g, st, ptr - 16), 0)
    else if ptr == 0 then Malloc(g, st, size)
    else Resize(g, st, ptr - 16, size)
  }

  lemma StillFreeable(g: Geometry, st: State, t: State, b: int, a: int, s: int)
    requires HandedOut(st, t, b, s) && b in st.free && Freeable(g, st, a)
    ensures Freeable(g, t, a) && t.next[a] == st.next[a] && a != b
  {
    assert a in Live(st);
    assert a in Live(t);
  }

  lemma GrowUsed(g: Geometry, st: State, a: int)
    requires Inv(g, st) && Freeable(g, st, a)
    ensures a in st.next && st.next[a] in st.next
    ensures st.next[a] in st.free ==>
      a in Grow(st, a).next && Grow(st, a).next[a] in Grow(st, a).next && Inv(g, Grow(st, a))
      && Freeable(g, Grow(st, a), a) && Grow(st, a).next[a] == st.next[st.next[a]]
      && Live(Grow(st, a)) == Live(st)[a := st.next[st.next[a]]]
  {
    assert st.next[a] in st.next;
    if st.next[a] in st.free {
      GrowInv(g, st, a);
      GrowLive(st.next, st.free, a);
    }
  }

  lemma GrowInv(g: Geometry, st: State, a: int)
    requires Inv(g, st) && Freeable(g, st, a) && st.next[a] in st.free
    ensures Inv(g, Grow(st, a))
  {
    var n := st.next[a];
    UnfileFiled(g, st, {}, n);
    JoinPhysical(g, Unfile(st, n), a);
    assert {} + {n} == {n} && {n} - {n} == {};
    JoinFiled(st.next, st.free, Unfile(st, n).lists, {n}, a);
    GrowCoalesced(g.last, st.next, st.prev, st.free, a);
  }

  lemma GrowCoalesced(last: int, next: Links, prev: Links, free: set<int>, a: int)
    requires Chained(last, next, prev) && a in next && a != last && a !in free
    requires next[a] in next && next[a] in free && next[a] != last
    requires forall b :: b in free ==> b in next && b != last
    requires Coalesced(next, free)
    ensures Coalesced(AbsorbNext(next, a), free - {next[a]})
  {
  }

  lemma GrowLive(next: Links, free: set<int>, a: int)
    requires a in next && next[a] in next && a !in free && next[a] in free
    ensures LiveIn(AbsorbNext(next, a), free - {next[a]}) == LiveIn(next, free)[a := next[next[a]]]
  {
  }

  // ---- block_trim_used ----

  lemma CutUsedCoalesced(last: int, next: Links, prev: Links, free: set<int>, a: int, r: int)
    requires Chained(last, next, prev) && a in next && a != last && a !in free && r !in next
    requires forall b :: b in free ==> b in next && b != last
    requires Coalesced(next, free)
    ensures CoalescedBut(SplitNext(next, a, r), free + {r}, r)
  {
  }

  lemma CutUsedHolding(g: Geometry, st: State, a: int, r: int)
    requires Inv(g, st) && Freeable(g, st, a)
    requires CanCut(g.last, st.next, a, r) && Multiple8(r)
    ensures Holding(g, Cut(st, a, r), r) && PrevIsUsed(Cut(st, a, r), r) && r !in st.next
  {
    CutPhysical(g, st, a, r);
    CutFiled(st.next, st.free, st.lists, {}, a, r);
    assert {} + {r} == {r};
    CutUsedCoalesced(g.last, st.next, st.prev, st.free, a, r);
  }

  lemma CutUsedLive(next: Links, free: set<int>, a: int, r: int)
    requires a in next && a !in free && r !in next
    ensures LiveIn(SplitNext(next, a, r), free + {r}) == LiveIn(next, free)[a := r]
  {
  }

  lemma CutOffInv(g: Geometry, st: State, a: int, r: int)
    requires Inv(g, st) && Freeable(g, st, a)
    requires CanCut(g.last, st.next, a, r) && Multiple8(r)
    ensures Cut(st, a, r).next[r] in Cut(st, a, r).next
    ensures Inv(g, File(MergeNext(Cut(st, a, r), r), r))
  {
    CutUsedHolding(g, st, a, r);
    NextIsBlock(g, Cut(st, a, r), r);
    MergeNextHolding(g, Cut(st, a, r), r);
    FileInv(g, MergeNext(Cut(st, a, r), r), r);
  }

  lemma CutOffLive(g: Geometry, st: State, a: int, r: int)
    requires Inv(g, st) && Freeable(g, st, a)
    requires CanCut(g.last, st.next, a, r) && Multiple8(r)
    ensures Cut(st, a, r).next[r] in Cut(st, a, r).next
    ensures Live(File(MergeNext(Cut(st, a, r), r), r)) == Live(st)[a := r]
  {
    CutUsedHolding(g, st, a, r);
    NextIsBlock(g, Cut(st, a, r), r);
    CutUsedLive(st.next, st.free, a, r);
    MergeNextLive(g, Cut(st, a, r), r);
  }

  lemma TrimUsedInv(g: Geometry, st: State, a: int, s: int)
    requires Inv(g, st) && Freeable(g, st, a) && Multiple8(s) && s >= BLOCK_SIZE_MIN
    ensures st.next[a] in st.next && Inv(g, TrimUsed(st, a, s))
  {
    hide Tiled, Filed, Coalesced, CoalescedBut;
    NextIsBlock(g, st, a);
    CutPlace(g, st, a, s);
    if CanSplit(st, a, s) { CutOffInv(g, st, a, a + s + 8); }
  }

  // The trimmed block keeps at most 24 bytes over the request.
  lemma TrimUsedHandsOut(g: Geometry, st: State, a: int, s: int)
    requires Inv(g, st) && Freeable(g, st, a) && Multiple8(s) && s >= BLOCK_SIZE_MIN
    requires s <= Size(st.next, a)
    ensures st.next[a] in st.next && HandedOut(st, TrimUsed(st, a, s), a, s)
  {
    hide Tiled, Filed, Coalesced, CoalescedBut;
    NextIsBlock(g, st, a);
    CutPlace(g, st, a, s);
    if CanSplit(st, a, s) {
      CutOffLive(g, st, a, a + s + 8);
      InLive(TrimUsed(st, a, s), a, a + s + 8);
    } else {
      TrimKeepsAll(g, st, a, s);
    }
  }

  lemma TrimKeepsAll(g: Geometry, st: State, a: int, s: int)
    requires Physical(g, st) && Freeable(g, st, a) && Multiple8(s) && s <= Size(st.next, a) < s + 32
    ensures HandedOut(st, st, a, s)
  {
    SlackIsSmall(st.next, a, s);
    assert Live(st) == Live(st)[a := st.next[a]];
  }

  lemma InLive(st: State, a: int, end: int)
    requires a in Live(st) && Live(st)[a] == end
    ensures Used(st, a) && st.next[a] == end
  {
  }

  // ---- The whole call ----

  lemma ReshapeInv(g: Geometry, st: State, a: int, s: int)
    requires Inv(g, st) && Freeable(g, st, a) && Multiple8(s) && s >= BLOCK_SIZE_MIN
    requires st.next[a] in st.next && InPlace(st, a, s)
    ensures Inv(g, Reshape(g, st, a, s))
  {
    if s > Size(st.next, a) {
      GrowUsed(g, st, a);
      TrimUsedInv(g, Grow(st, a), a, s);
    } else {
      TrimUsedInv(g, st, a, s);
    }
  }

  lemma ReshapeHandsOut(g: Geometry, st: State, a: int, s: int)
    requires Inv(g, st) && Freeable(g, st, a) && Multiple8(s) && s >= BLOCK_SIZE_MIN
    requires st.next[a] in st.next && InPlace(st, a, s)
    ensures HandedOut(st, Reshape(g, st, a, s), a, s)
  {
    if s > Size(st.next, a) {
      GrowUsed(g, st, a);
      TrimUsedHandsOut(g, Grow(st, a), a, s);
      HandedOutAfter(st, Grow(st, a), Reshape(g, st, a, s), a, s);
    } else {
      TrimUsedHandsOut(g, st, a, s);
    }
  }

  lemma HandedOutAfter(st: State, t: State, u: State, a: int, s: int)
    requires HandedOut(t, u, a, s) && a in Live(t) && Live(t) == Live(st)[a := Live(t)[a]]
    requires t.next.Keys <= st.next.Keys
    ensures HandedOut(st, u, a, s)
  {
    assert Live(t)[a := u.next[a]] == Live(st)[a := u.next[a]];
  }

  // realloc has no branch for requests beyond block_size_max, which adjust to
  // zero; a block of fewer than 32 bytes is then too small to be cut.
  ghost predicate Resizable(st: State, a: int, size: nat) {
    a in st.next && (AdjustRequestSize(size, ALIGN_SIZE) != 0 || Size(st.next, a) < BLOCK_HEADER_SIZE)
  }

  lemma ResizeInv(g: Geometry, st: State, a: int, size: nat)
    requires Inv(g, st) && Freeable(g, st, a) && Resizable(st, a, size)
    ensures Inv(g, Resize(g, st, a, size).0)
    ensures Resize(g, st, a, size).1 == 0 ==> Resize(g, st, a, size).0 == st
  {
    hide AdjustRequestSize;
    AdjustIsAligned(size);
    NextIsBlock(g, st, a);
    if AdjustRequestSize(size, ALIGN_SIZE) == 0 {
      ZeroTrim(g, st, a);
    } else if InPlace(st, a, AdjustRequestSize(size, ALIGN_SIZE)) {
      ReshapeInv(g, st, a, AdjustRequestSize(size, ALIGN_SIZE));
      AboveZero(g, st, a);
    } else if Malloc(g, st, size).1 != 0 {
      MoveFreeable(g, st, a, size);
      FreeInv(g, Malloc(g, st, size).0, a);
    }
  }

  lemma ZeroTrim(g: Geometry, st: State, a: int)
    requires Physical(g, st) && a in st.next && a != g.last
    ensures a > 0 && st.next[a] in st.next && InPlace(st, a, 0) && BLOCK_SIZE_MIN <= Size(st.next, a)
    ensures Size(st.next, a) < BLOCK_HEADER_SIZE ==> TrimUsed(st, a, 0) == st
  {
  }

  lemma ZeroReshape(g: Geometry, st: State, a: int)
    requires Inv(g, st) && Freeable(g, st, a) && st.next[a] in st.next && Size(st.next, a) >= 0
    ensures Reshape(g, st, a, 0) == TrimUsed(st, a, 0)
  {
  }

  lemma AboveZero(g: Geometry, st: State, a: int)
    requires Physical(g, st) && a in st.next
    ensures a > 0
  {
  }

  // The payload, with that of a free successor and its header, is not enough.
  ghost predicate Outgrown(st: State, a: int, s: int)
    requires a in st.next && st.next[a] in st.next
  {
    && Size(st.next, a) < s
    && (st.next[a] in st.free ==> Size(st.next, a) + BLOCK_HEADER_OVERHEAD + Size(st.next, st.next[a]) < s)
  }

  // realloc keeps the pointer exactly when the request fits the block or the
  // block with its free successor.
  lemma ResizeKeepsPointerIff(g: Geometry, st: State, a: int, size: nat)
    requires Inv(g, st) && Freeable(g, st, a)
    ensures st.next[a] in st.next
    ensures Resize(g, st, a, size).1 == a + 16 <==> !Outgrown(st, a, AdjustRequestSize(size, ALIGN_SIZE))
  {
    hide AdjustRequestSize;
    NextIsBlock(g, st, a);
    if !InPlace(st, a, AdjustRequestSize(size, ALIGN_SIZE)) {
      AboveZero(g, st, a);
      if Malloc(g, st, size).1 != 0 { MoveFreeable(g, st, a, size); }
    }
  }

  // Else it gives up exactly when no free block reaches the request, and moves to a
  // good fit otherwise.
  lemma ResizeRefusal(g: Geometry, st: State, a: int, size: nat)
    requires Inv(g, st) && Freeable(g, st, a)
    ensures st.next[a] in st.next
    ensures Resize(g, st, a, size).1 == 0
       <==> Outgrown(st, a, AdjustRequestSize(size, ALIGN_SIZE)) && NoneReaches(st, AdjustRequestSize(size, ALIGN_SIZE))
    ensures Resize(g, st, a, size).1 == 0 || Resize(g, st, a, size).1 == a + 16
         || GoodFit(st, Resize(g, st, a, size).1 - 16, AdjustRequestSize(size, ALIGN_SIZE))
  {
    hide Malloc, NoneReaches, GoodFit, AdjustRequestSize, Tiled, Filed, Coalesced, Reshape, Free;
    NextIsBlock(g, st, a);
    AboveZero(g, st, a);
    ZeroTrim(g, st, a);
    hide Inv, Freeable, Size;
    MallocRefusal(g, st, size);
    if Malloc(g, st, size).1 != 0 { MallocGoodFit(g, st, size); }
  }

  ghost predicate Resized(st: State, a: int, t: State, b: int, s: nat) {
    && Used(t, b) && s <= Size(t.next, b) <= s + 24 && (Size(t.next, b) == s || t.next[b] in st.next)
    && Live(t) == (Live(st) - {a})[b := t.next[b]]
  }

  // On success the caller owns one block of the new size instead of the old
  // one, and every other block as before.
  lemma ResizeLive(g: Geometry, st: State, a: int, size: nat)
    requires Inv(g, st) && Freeable(g, st, a) && Resizable(st, a, size)
    requires Resize(g, st, a, size).1 != 0
    ensures var (t, q) := Resize(g, st, a, size);
      Resized(st, a, t, q - 16, AdjustRequestSize(size, ALIGN_SIZE))
  {
    hide Tiled, Filed, Coalesced, CoalescedBut, Reshape, Malloc, Free, LiveIn;
    AdjustIsAligned(size);
    NextIsBlock(g, st, a);
    var s := AdjustRequestSize(size, ALIGN_SIZE);
    if s == 0 {
      ZeroTrim(g, st, a);
      ZeroReshape(g, st, a);
      TrimKeepsAll(g, st, a, 0);
      Replaced(Live(st), a, a, st.next[a]);
    } else if InPlace(st, a, s) {
      ReshapeHandsOut(g, st, a, s);
      Replaced(Live(st), a, a, Reshape(g, st, a, s).next[a]);
    } else {
      MoveFreeable(g, st, a, size);
      MallocHandsOut(g, st, size);
      MovedLive(g, st, Malloc(g, st, size).0, Malloc(g, st, size).1 - 16, a, s);
    }
  }

  // How many bytes a resized block keeps: the smaller of the old size and the one
  // asked for, which for the seven requests that wrap is the new block's size.
  ghost function ContentsKept(s0: State, a: int, s1: State, b: int, size: nat): int
    requires a in s0.next && b in s1.next
  {
    Min(Size(s0.next, a), if size <= SIZE_T_RANGE - 8 then size else Size(s1.next, b))
  }

  // It is neither more than either of the two nor less than both.
  lemma ContentsKeptIs(s0: State, a: int, s1: State, b: int, size: nat)
    requires a in s0.next && b in s1.next
    ensures var n := ContentsKept(s0, a, s1, b, size);
      var asked := if size <= SIZE_T_RANGE - 8 then size else Size(s1.next, b);
      n <= Size(s0.next, a) && n <= asked && (n == Size(s0.next, a) || n == asked)
  {
  }

  ghost predicate KeptFits(s0: State, a: int, s1: State, b: int, size: nat)
    requires a in s0.next
  {
    && b in s1.next
    && ContentsKept(s0, a, s1, b, size) <= Size(s1.next, b)
    && ContentsKept(s0, a, s1, b, size) <= Size(s0.next, a)
  }

  // The new block has room for them.
  lemma ContentsFit(g: Geometry, st: State, a: int, size: nat)
    requires Inv(g, st) && Freeable(g, st, a) && Resizable(st, a, size) && size < SIZE_T_RANGE
    requires Resize(g, st, a, size).1 != 0
    ensures KeptFits(st, a, Resize(g, st, a, size).0, Resize(g, st, a, size).1 - 16, size)
  {
    hide Resize, AdjustRequestSize;
    ResizeLive(g, st, a, size);
    if size <= SIZE_T_RANGE - 8 {
      AdjustedRequest(size);
      if AdjustRequestSize(size, ALIGN_SIZE) == 0 { ZeroResize(g, st, a, size); }
    }
  }

  lemma ZeroResize(g: Geometry, st: State, a: int, size: nat)
    requires Inv(g, st) && Freeable(g, st, a) && Resizable(st, a, size)
    requires AdjustRequestSize(size, ALIGN_SIZE) == 0
    ensures Resize(g, st, a, size) == (st, a + 16)
  {
    hide AdjustRequestSize;
    ZeroTrim(g, st, a);
  }

  lemma Replaced(m: map<int, int>, a: int, b: int, e: int)
    ensures a == b ==> m[b := e] == (m - {a})[b := e]
    ensures a != b ==> m[b := e] - {a} == (m - {a})[b := e]
  {
  }

  lemma MovedLive(g: Geometry, st: State, t: State, b: int, a: int, s: int)
    requires Inv(g, t) && Freeable(g, t, a) && HandedOut(st, t, b, s) && a != b
    ensures Used(Free(g, t, a), b) && Free(g, t, a).next[b] == t.next[b]
    ensures Live(Free(g, t, a)) == (Live(st) - {a})[b := t.next[b]]
  {
    FreeLive(g, t, a);
    Replaced(Live(st), a, b, t.next[b]);
    InLive(Free(g, t, a), b, t.next[b]);
  }

  // ---- Requests beyond block_size_max ----

  // A larger block is cut at zero bytes, which leaves a zero-size block in
  // mid-pool.
  lemma ResizeKeepsInvIff(g: Geometry, st: State, a: int, size: nat)
    requires Inv(g, st) && Freeable(g, st, a)
    ensures Inv(g, Resize(g, st, a, size).0) <==> Resizable(st, a, size)
    ensures AdjustRequestSize(size, ALIGN_SIZE) == 0 ==>
      && Resize(g, st, a, size).1 == a + 16
      && (Resizable(st, a, size) ==> Resize(g, st, a, size).0 == st)
      && (!Resizable(st, a, size) ==> Resize(g, st, a, size).0.next[a] == a + 8)
  {
    hide AdjustRequestSize;
    ZeroTrim(g, st, a);
    if AdjustRequestSize(size, ALIGN_SIZE) == 0 && !Resizable(st, a, size) {
      ZeroCut(g, st, a);
    } else {
      ResizeInv(g, st, a, size);
    }
  }

  lemma ZeroCut(g: Geometry, st: State, a: int)
    requires Inv(g, st) && Freeable(g, st, a) && CanSplit(st, a, 0) && st.next[a] in st.next
    ensures a in TrimUsed(st, a, 0).next && TrimUsed(st, a, 0).next[a] == a + 8
    ensures !Inv(g, TrimUsed(st, a, 0))
  {
    hide Filed, Coalesced;
    var t := TrimUsed(st, a, 0);
    assert t.next[a] == a + 8;
  }
}
