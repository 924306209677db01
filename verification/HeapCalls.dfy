// malloc and free on the abstract heap, and the properties their callers rely
// on. The class Tlsf.Control refines these functions.
module HeapCalls {
  import opened SizeClass
  import opened Heap
  import opened HeapOps

  // What callers own: the used blocks, each with the address its storage ends at.
  ghost function Live(st: State): map<int, int> {
    LiveIn(st.next, st.free)
  }

  ghost function LiveIn(next: Links, free: set<int>): map<int, int> {
    map a | a in next && a !in free :: next[a]
  }

  ghost function Use(st: State, a: int): State {
    st.(free := st.free - {a})
  }

  // ---- malloc ----

  // tlsf_malloc; address 0 stands for NULL.
  ghost function Malloc(g: Geometry, st: State, size: nat): (State, int)
    requires Inv(g, st)
  {
    AdjustIsAligned(size);
    var s := AdjustRequestSize(size, ALIGN_SIZE);
    var c := Found(st.lists, s);
    if c == CLASS_COUNT then (st, 0)
    else
      var a := st.lists[c][0];
      TakeHolding(g, st, s);
      (Use(TrimFree(Take(st, c), a, s), a), a + 16)
  }

  lemma TrimFreeLive(next: Links, free: set<int>, a: int, r: int)
    requires a in next && a in free && r !in next
    ensures LiveIn(SplitNext(next, a, r), free + {r} - {a}) == LiveIn(next, free)[a := r]
  {
  }

  lemma UseLive(next: Links, free: set<int>, a: int)
    requires a in next
    ensures LiveIn(next, free - {a}) == LiveIn(next, free)[a := next[a]]
  {
  }

  // Trimming the block in hand and handing it out.
  lemma UseTrimmed(g: Geometry, st: State, a: int, s: int)
    requires Holding(g, st, a) && st.next[a] !in st.free
    requires Multiple8(s) && s >= BLOCK_SIZE_MIN
    ensures Inv(g, Use(TrimFree(st, a, s), a))
    ensures Joins(st, Use(TrimFree(st, a, s), a), a)
    ensures Size(st.next, a) >= s ==> HandedOut(st, Use(TrimFree(st, a, s), a), a, s)
  {
    TrimFreeHolding(g, st, a, s);
    UseHeld(g, TrimFree(st, a, s), a);
    UseTrimmedLive(g, st, a, s);
  }

  // Block a has joined the live blocks.
  ghost predicate Joins(st: State, t: State, a: int) {
    Used(t, a) && Live(t) == Live(st)[a := t.next[a]]
  }

  // It has s bytes, or up to 24 more where that is all up to the end of a block of
  // before.
  ghost predicate HandedOut(st: State, t: State, a: int, s: int) {
    && Joins(st, t, a) && s <= Size(t.next, a) <= s + 24
    && (Size(t.next, a) == s || t.next[a] in st.next)
  }

  lemma UseTrimmedLive(g: Geometry, st: State, a: int, s: int)
    requires Physical(g, st) && a in st.free && |st.lists| == CLASS_COUNT
    requires Multiple8(s) && s >= BLOCK_SIZE_MIN
    ensures Joins(st, Use(TrimFree(st, a, s), a), a)
    ensures Size(st.next, a) >= s ==> HandedOut(st, Use(TrimFree(st, a, s), a), a, s)
  {
    NextStays(g.last, st.next, st.prev, a);
    hide Shaped, Separate, Aligned, Multiple8, LiveIn;
    var r := a + s + 8;
    if CanSplit(st, a, s) {
      SplitSeparate(st.next, a, r);
      TrimFreeLive(st.next, st.free, a, r);
    } else {
      SlackIsSmall(st.next, a, s);
      UseLive(st.next, st.free, a);
    }
  }

  lemma SlackIsSmall(next: Links, a: int, s: int)
    requires Aligned(next) && a in next && next[a] in next && Multiple8(s)
    requires Size(next, a) < s + 32
    ensures Size(next, a) <= s + 24
  {
  }

  // The lists do not matter to what callers own.
  lemma ListsAside(st: State, st': State)
    requires st'.next == st.next && st'.free == st.free
    ensures Live(st') == Live(st)
  {
  }

  lemma MallocInv(g: Geometry, st: State, size: nat)
    requires Inv(g, st)
    ensures Inv(g, Malloc(g, st, size).0)
    ensures Malloc(g, st, size).1 == 0 ==> Malloc(g, st, size).0 == st
  {
    AdjustIsAligned(size);
    var s := AdjustRequestSize(size, ALIGN_SIZE);
    var c := Found(st.lists, s);
    if c < CLASS_COUNT {
      TakeHolding(g, st, s);
      UseTrimmed(g, Take(st, c), st.lists[c][0], s);
    }
  }

  // A pointer malloc returns names a block that was free, is large enough and
  // within 24 bytes of the request; all other live blocks stay as they were.
  lemma MallocHandsOut(g: Geometry, st: State, size: nat)
    requires Inv(g, st) && Malloc(g, st, size).1 != 0
    ensures Malloc(g, st, size).1 - 16 in st.free
    ensures HandedOut(st, Malloc(g, st, size).0, Malloc(g, st, size).1 - 16,
                      AdjustRequestSize(size, ALIGN_SIZE))
  {
    hide Tiled, Filed, Coalesced, CoalescedBut, LiveIn;
    AdjustIsAligned(size);
    hide AdjustRequestSize;
    var s := AdjustRequestSize(size, ALIGN_SIZE);
    var c := Found(st.lists, s);
    var a := st.lists[c][0];
    TakeHolding(g, st, s);
    UseTrimmed(g, Take(st, c), a, s);
    ListsAside(Take(st, c), st);
  }

  function SizeOf(st: State, b: int): nat {
    if b in st.next && Size(st.next, b) >= 0 then Size(st.next, b) else 0
  }

  // No free block is found for s bytes.
  ghost predicate NoneReaches(st: State, s: nat) {
    forall b :: b in st.free ==> !Reaches(SizeOf(st, b), s)
  }

  // malloc gives up exactly on requests that adjust to no size and on those that
  // no free block reaches.
  lemma MallocRefusal(g: Geometry, st: State, size: nat)
    requires Inv(g, st)
    ensures Malloc(g, st, size).1 == 0
       <==> AdjustRequestSize(size, ALIGN_SIZE) == 0 || NoneReaches(st, AdjustRequestSize(size, ALIGN_SIZE))
  {
    AdjustIsAligned(size);
    var s := AdjustRequestSize(size, ALIGN_SIZE);
    hide NoneReaches, Filed, Coalesced, AdjustRequestSize;
    FoundIff(g, st, s);
    if Found(st.lists, s) < CLASS_COUNT {
      TakeHolding(g, st, s);
      assert st.lists[Found(st.lists, s)][0] >= g.first;
    }
  }

  lemma FoundIff(g: Geometry, st: State, s: nat)
    requires Inv(g, st) && Multiple8(s) && s < BLOCK_SIZE_MAX
    ensures Found(st.lists, s) == CLASS_COUNT <==> s == 0 || NoneReaches(st, s)
    ensures forall b :: b in st.free && s != 0 && Reaches(SizeOf(st, b), s) ==>
      Found(st.lists, s) <= Class(SizeOf(st, b))
    ensures Found(st.lists, s) < CLASS_COUNT ==> Reaches(SizeOf(st, st.lists[Found(st.lists, s)][0]), s)
  {
    hide Reaches, Class, SearchSize;
    var k := Found(st.lists, s);
    forall b | b in st.free
      ensures b in st.next && Size(st.next, b) >= 0
      ensures s != 0 && Reaches(SizeOf(st, b), s) ==> k < CLASS_COUNT && k <= Class(SizeOf(st, b))
    {
      FiledWhere(g, st, b);
      SearchedClassIff(s, SizeOf(st, b));
    }
    if k < CLASS_COUNT {
      var a := st.lists[k][0];
      assert a in st.free && InClass(st.next, a, k);
      SearchedClassIff(s, SizeOf(st, a));
    }
  }

  lemma FiledWhere(g: Geometry, st: State, b: int)
    requires Inv(g, st) && b in st.free
    ensures b in st.next && Size(st.next, b) >= 0
    ensures Class(SizeOf(st, b)) < CLASS_COUNT && b in st.lists[Class(SizeOf(st, b))]
  {
    hide Tiled, Coalesced, Class;
    ClassInRange(g, st, b);
  }

  ghost predicate HeadsItsList(st: State, a: int) {
    var c := Class(SizeOf(st, a));
    c < |st.lists| && st.lists[c] != [] && st.lists[c][0] == a
  }

  // Good fit: block a is the first of its list, and every free block that reaches
  // the request is in that list or a later one.
  ghost predicate GoodFit(st: State, a: int, s: nat) {
    && a in st.free && Reaches(SizeOf(st, a), s) && HeadsItsList(st, a)
    && forall b :: b in st.free && Reaches(SizeOf(st, b), s) ==> Class(SizeOf(st, a)) <= Class(SizeOf(st, b))
  }

  lemma FoundIsGoodFit(g: Geometry, st: State, s: nat)
    requires Inv(g, st) && Multiple8(s) && s < BLOCK_SIZE_MAX && Found(st.lists, s) < CLASS_COUNT
    ensures GoodFit(st, st.lists[Found(st.lists, s)][0], s)
  {
    hide Tiled, Filed, Coalesced, Reaches, Class;
    FoundIff(g, st, s);
    TakeHolding(g, st, s);
  }

  lemma MallocGoodFit(g: Geometry, st: State, size: nat)
    requires Inv(g, st) && Malloc(g, st, size).1 != 0
    ensures GoodFit(st, Malloc(g, st, size).1 - 16, AdjustRequestSize(size, ALIGN_SIZE))
  {
    hide Tiled, Filed, Coalesced, GoodFit;
    AdjustIsAligned(size);
    hide AdjustRequestSize;
    FoundIsGoodFit(g, st, AdjustRequestSize(size, ALIGN_SIZE));
  }

  // ---- free ----

  ghost predicate Freeable(g: Geometry, st: State, a: int) {
    Used(st, a) && a != g.last
  }

  // tlsf_free of a non-NULL pointer, given the header address.
  ghost function Free(g: Geometry, st: State, a: int): State
    requires Inv(g, st) && Freeable(g, st, a)
  {
    MarkHolding(g, st, a);
    MergePrevHolding(g, st.(free := st.free + {a}), a);
    var (t, p) := MergePrev(st.(free := st.free + {a}), a);
    MergeNextHolding(g, t, p);
    File(MergeNext(t, p), p)
  }

  lemma FreeInv(g: Geometry, st: State, a: int)
    requires Inv(g, st) && Freeable(g, st, a)
    ensures Inv(g, Free(g, st, a))
  {
    MarkHolding(g, st, a);
    MergePrevHolding(g, st.(free := st.free + {a}), a);
    var (t, p) := MergePrev(st.(free := st.free + {a}), a);
    MergeNextHolding(g, t, p);
    FileInv(g, MergeNext(t, p), p);
  }

  // The free block that takes the given one in becomes the first of its list.
  lemma FreedIsFirst(g: Geometry, st: State, a: int, p: int)
    requires Inv(g, st) && Freeable(g, st, a) && p in Free(g, st, a).free && Spans(Free(g, st, a), p, a)
    ensures HeadsItsList(Free(g, st, a), p)
  {
    hide Tiled, Filed, Coalesced, Class;
    var t0 := st.(free := st.free + {a});
    MarkHolding(g, st, a);
    MergePrevHolding(g, t0, a);
    MergePrevSpans(g, t0, a);
    var (t, q) := MergePrev(t0, a);
    MergeNextHolding(g, t, q);
    MergeNextSpans(g, t, q, a);
    ClassInRange(g, MergeNext(t, q), q);
    OneSpan(g, MergeNext(t, q), p, q, a);
  }

  lemma MergePrevSpans(g: Geometry, st: State, a: int)
    requires Holding(g, st, a)
    ensures a in st.prev ==> st.prev[a] in st.next && st.next[st.prev[a]] == a && a in st.next
    ensures Spans(MergePrev(st, a).0, MergePrev(st, a).1, a)
  {
    hide Filed, CoalescedBut, Aligned, Separate;
  }

  lemma MergeNextSpans(g: Geometry, st: State, q: int, a: int)
    requires Holding(g, st, q) && Spans(st, q, a)
    ensures (st.next[q] in st.free ==> st.next[q] in st.next) && Spans(MergeNext(st, q), q, a)
  {
    hide Filed, CoalescedBut, Aligned, Separate;
  }

  lemma OneSpan(g: Geometry, st: State, p: int, q: int, x: int)
    requires Physical(g, st) && Spans(st, p, x) && Spans(st, q, x)
    ensures p == q
  {
    hide Shaped, Chained, Aligned;
  }

  ghost predicate Spans(st: State, p: int, x: int) {
    p in st.next && p <= x < st.next[p]
  }

  // free takes exactly the given block out of the live blocks.
  lemma FreeLive(g: Geometry, st: State, a: int)
    requires Inv(g, st) && Freeable(g, st, a)
    ensures Live(Free(g, st, a)) == Live(st) - {a}
  {
    var t0 := st.(free := st.free + {a});
    MarkHolding(g, st, a);
    MergePrevHolding(g, t0, a);
    var (t, p) := MergePrev(t0, a);
    MergeNextHolding(g, t, p);
    MarkLive(st.next, st.free, a);
    MergePrevLive(g, t0, a);
    MergeNextLive(g, t, p);
  }

  lemma MarkLive(next: Links, free: set<int>, a: int)
    ensures LiveIn(next, free + {a}) == LiveIn(next, free) - {a}
  {
  }

  lemma JoinLive(next: Links, free: set<int>, p: int)
    requires p in next && next[p] in next && p in free && next[p] in free && p < next[p]
    ensures LiveIn(AbsorbNext(next, p), free - {next[p]}) == LiveIn(next, free)
  {
  }

  lemma MergePrevLive(g: Geometry, st: State, a: int)
    requires Holding(g, st, a)
    ensures Live(MergePrev(st, a).0) == Live(st)
  {
    if a in st.prev && st.prev[a] in st.free { JoinLive(st.next, st.free, st.prev[a]); }
  }

  lemma MergeNextLive(g: Geometry, st: State, a: int)
    requires Holding(g, st, a)
    ensures Live(MergeNext(st, a)) == Live(st)
  {
    if st.next[a] in st.free { JoinLive(st.next, st.free, a); }
  }
}
