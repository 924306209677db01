// Freeing what has just been allocated undoes the allocation.
module HeapRoundTrip {
  import opened SizeClass
  import opened Heap
  import opened HeapOps
  import opened HeapCalls
  import opened HeapAlign
  import opened HeapMemalign

  lemma CutThenJoin(next: Links, prev: Links, free: set<int>, a: int, r: int)
    requires a in next && r !in next && r !in prev && r !in free && a != r
    requires next[a] in prev && prev[next[a]] == a && next[a] != a
    ensures a in SplitNext(next, a, r) && SplitNext(next, a, r)[a] == r
    ensures AbsorbNext(SplitNext(next, a, r), a) == next
    ensures AbsorbPrev(SplitNext(next, a, r), SplitPrev(next, prev, a, r), a) == prev
    ensures free + {r} - {r} == free
  {
    assert AbsorbNext(SplitNext(next, a, r), a).Keys == next.Keys;
    assert AbsorbPrev(SplitNext(next, a, r), SplitPrev(next, prev, a, r), a).Keys == prev.Keys;
  }

  lemma PushThenDrop(lists: Lists, c: int, a: int)
    requires 0 <= c < |lists|
    ensures Drop(Push(lists, c, a), c, a) == lists
  {
    assert [a] + lists[c] != [] && ([a] + lists[c])[1..] == lists[c];
  }

  lemma DropThenPush(lists: Lists, c: int)
    requires 0 <= c < |lists| && lists[c] != []
    ensures Push(Drop(lists, c, lists[c][0]), c, lists[c][0]) == lists
  {
    assert [lists[c][0]] + lists[c][1..] == lists[c];
  }

  // Dropping a block that another one has been pushed in front of, or not.
  lemma DropPastPush(lists: Lists, c: int, a: int, d: int, b: int)
    requires 0 <= c < |lists| && 0 <= d < |lists| && a != b
    ensures Drop(Push(Push(lists, c, a), d, b), c, a) == Push(lists, d, b)
  {
    if c == d {
      var l := [b] + ([a] + lists[c]);
      assert l[1..] == [a] + lists[c] && ([a] + lists[c])[1..] == lists[c];
      assert Without(l, a) == [b] + lists[c];
    } else {
      assert ([a] + lists[c])[1..] == lists[c];
    }
  }

  // ---- Undoing the trim ----

  // Merging forward takes back the tail that a trim cut off.
  lemma MergeUndoesTrim(g: Geometry, st: State, a: int, s: int)
    requires Holding(g, st, a) && st.next[a] !in st.free && s >= BLOCK_SIZE_MIN
    ensures a in TrimFree(st, a, s).next
    ensures TrimFree(st, a, s).next[a] in TrimFree(st, a, s).free ==>
              TrimFree(st, a, s).next[a] in TrimFree(st, a, s).next
    ensures MergeNext(TrimFree(st, a, s), a) == st
  {
    hide Tiled, Filed, CoalescedBut;
    if CanSplit(st, a, s) {
      var r := a + s + 8;
      RFresh(g, st, a, r);
      CutThenJoin(st.next, st.prev, st.free, a, r);
      hide AbsorbNext, AbsorbPrev, SplitNext, SplitPrev;
      var c := ClassOf(Cut(st, a, r), r);
      PushThenDrop(st.lists, c, r);
      hide Push, Drop;
      assert Unfile(File(Cut(st, a, r), r), r) == Cut(st, a, r);
    }
  }

  lemma RFresh(g: Geometry, st: State, a: int, r: int)
    requires Physical(g, st) && CanCut(g.last, st.next, a, r)
    ensures r !in st.next && r !in st.prev && r !in st.free && a != r
    ensures st.next[a] in st.prev && st.prev[st.next[a]] == a && st.next[a] != a
  {
  }

  // ---- malloc, then free ----

  // The pointer just returned can be freed.
  lemma MallocFreeable(g: Geometry, st: State, size: nat)
    requires Inv(g, st) && Malloc(g, st, size).1 != 0
    ensures Inv(g, Malloc(g, st, size).0)
    ensures Freeable(g, Malloc(g, st, size).0, Malloc(g, st, size).1 - 16)
  {
    MallocInv(g, st, size);
    MallocHandsOut(g, st, size);
  }

  // Once block a, taken from list c, has been trimmed and used, freeing it gives
  // back the state it was taken from.
  lemma FreeUndoesUse(g: Geometry, st: State, c: int, s: int)
    requires Inv(g, st) && 0 <= c < CLASS_COUNT && st.lists[c] != []
    requires s >= BLOCK_SIZE_MIN && Multiple8(s)
    requires st.lists[c][0] in st.next && c == ClassOf(st, st.lists[c][0])
    requires Holding(g, Take(st, c), st.lists[c][0]) && st.next[st.lists[c][0]] !in st.free
    requires var a := st.lists[c][0];
      Inv(g, Use(TrimFree(Take(st, c), a, s), a)) && Freeable(g, Use(TrimFree(Take(st, c), a, s), a), a)
    ensures var a := st.lists[c][0]; Free(g, Use(TrimFree(Take(st, c), a, s), a), a) == st
  {
    hide Tiled, Filed, CoalescedBut;
    var a := st.lists[c][0];
    var u := TrimFree(Take(st, c), a, s);
    var v := Use(u, a);
    MarkHolding(g, v, a);
    TrimFreeHolding(g, Take(st, c), a, s);
    assert v.(free := v.free + {a}) == u by { assert u.free - {a} + {a} == u.free; }
    PrevUsedAfterTrim(g, st, Take(st, c), a, s);
    if a in u.prev { PrevChained(g, u, a); }
    assert MergePrev(u, a) == (u, a);
    MergeUndoesTrim(g, Take(st, c), a, s);
    DropThenPush(st.lists, c);
    assert File(Take(st, c), a) == st;
  }

  lemma PrevUsedAfterTrim(g: Geometry, st: State, t: State, a: int, s: int)
    requires Inv(g, st) && a in st.free && t.next == st.next && t.prev == st.prev && t.free == st.free
    requires a in t.next && |t.lists| == CLASS_COUNT && s >= BLOCK_SIZE_MIN
    ensures PrevIsUsed(TrimFree(t, a, s), a)
  {
    hide Tiled, Filed;
    if a in st.prev { PrevOfFreeIsUsed(g, st, a); }
    if CanSplit(t, a, s) { RFresh(g, st, a, a + s + 8); }
  }

  lemma PrevOfFreeIsUsed(g: Geometry, st: State, a: int)
    requires Inv(g, st) && a in st.free && a in st.prev
    ensures st.prev[a] !in st.free && st.prev[a] in st.next
  {
    PrevChained(g, st, a);
  }

  // tlsf_free of a block just obtained from tlsf_malloc restores the blocks and
  // the free lists, order included.
  lemma FreeAfterMalloc(g: Geometry, st: State, size: nat)
    requires Inv(g, st) && Malloc(g, st, size).1 != 0
    ensures Inv(g, Malloc(g, st, size).0)
    ensures Freeable(g, Malloc(g, st, size).0, Malloc(g, st, size).1 - 16)
    ensures Free(g, Malloc(g, st, size).0, Malloc(g, st, size).1 - 16) == st
  {
    hide Tiled, Filed, CoalescedBut, Coalesced, Free;
    AdjustIsAligned(size);
    var s := AdjustRequestSize(size, ALIGN_SIZE);
    var c := Found(st.lists, s);
    TakeHolding(g, st, s);
    ClassInRange(g, st, st.lists[c][0]);
    MallocFreeable(g, st, size);
    FreeUndoesUse(g, st, c, s);
  }

  // ---- memalign, then free ----

  // Joining the leading part of a block cut twice leaves it cut once.
  lemma CutTwiceThenJoin(next: Links, prev: Links, free: set<int>, a: int, r: int, r2: int)
    requires a in next && r !in next && r !in prev && r !in free && r2 !in next && r2 !in free
    requires a != r && a != r2 && r != r2 && next[a] != r && next[a] != r2 && next[a] != a
    ensures var n1 := SplitNext(next, a, r); var p1 := SplitPrev(next, prev, a, r);
      a in n1 && r in n1 &&
      var n2 := SplitNext(n1, r, r2); var p2 := SplitPrev(n1, p1, r, r2);
      a in n2 && n2[a] == r && r in n2 && n2[r] == r2
      && AbsorbNext(n2, a) == SplitNext(next, a, r2) && AbsorbPrev(n2, p2, a) == SplitPrev(next, prev, a, r2)
    ensures free + {r} + {r2} - {r} == free + {r2}
  {
  }

  // The state with both trims made: leading part a, tail r2, block r between.
  lemma MergeBackLeading(g: Geometry, t: State, a: int, r: int, r2: int)
    requires Physical(g, t) && a in t.free && CanCut(g.last, t.next, a, r) && CanCut(g.last, t.next, a, r2)
    requires r < r2
    ensures a in Cut(t, a, r).next && r in File(Cut(t, a, r), a).next
    ensures r2 in Cut(File(Cut(t, a, r), a), r, r2).next
    ensures var u := File(Cut(File(Cut(t, a, r), a), r, r2), r2);
      a in u.next && u.next[a] == r && r in u.next
      && Join(Unfile(u, a), a) == File(Cut(t, a, r2), r2)
  {
    hide Tiled;
    RFresh(g, t, a, r);
    RFresh(g, t, a, r2);
    NextBlockFresh(g, t, a);
    CutTwiceThenJoin(t.next, t.prev, t.free, a, r, r2);
    var x := Cut(t, a, r);
    var y := Cut(File(x, a), r, r2);
    assert y.next[a] == x.next[a] && y.next[r2] == Cut(t, a, r2).next[r2];
    hide AbsorbNext, AbsorbPrev, SplitNext, SplitPrev;
    DropPastPush(t.lists, ClassOf(x, a), a, ClassOf(y, r2), r2);
  }

  lemma NextBlockFresh(g: Geometry, t: State, a: int)
    requires Physical(g, t) && a in t.free
    ensures a in t.next && t.next[a] in t.next && t.next[a] != a
  {
  }

  // Freeing the aligned block r: it joins the leading part, then the tail.
  lemma FreeUndoesLeading(g: Geometry, st: State, c: int, r: int, s: int)
    requires Inv(g, st) && 0 <= c < CLASS_COUNT && st.lists[c] != []
    requires s >= BLOCK_SIZE_MIN && Multiple8(s)
    requires st.lists[c][0] in st.next && c == ClassOf(st, st.lists[c][0])
    requires Holding(g, Take(st, c), st.lists[c][0]) && st.next[st.lists[c][0]] !in st.free
    requires CanCut(g.last, st.next, st.lists[c][0], r) && Multiple8(r)
    requires st.lists[c][0] in Cut(Take(st, c), st.lists[c][0], r).next
    requires var t := File(Cut(Take(st, c), st.lists[c][0], r), st.lists[c][0]);
      r in t.next && Inv(g, Use(TrimFree(t, r, s), r)) && Freeable(g, Use(TrimFree(t, r, s), r), r)
    ensures var t := File(Cut(Take(st, c), st.lists[c][0], r), st.lists[c][0]);
      Free(g, Use(TrimFree(t, r, s), r), r) == st
  {
    hide Tiled, Filed, CoalescedBut;
    var a := st.lists[c][0];
    var h := Take(st, c);
    LeadingCut(g, h, a, r);
    var t := File(Cut(h, a, r), a);
    var u := TrimFree(t, r, s);
    TrimFreeHolding(g, t, r, s);
    assert Use(u, r).(free := Use(u, r).free + {r}) == u by { assert u.free - {r} + {r} == u.free; }
    MarkHolding(g, Use(u, r), r);
    MergePrevHolding(g, u, r);
    JoinBack(g, h, a, r, s);
    var w := MergePrev(u, r).0;
    assert MergePrev(u, r).1 == a;
    TailMergesBack(g, h, a, r, s);
    DropThenPush(st.lists, c);
    assert File(h, a) == st;
  }

  // What is left once the leading part has taken r back: a, cut at the tail or
  // not at all.
  ghost function Rejoined(h: State, a: int, r: int, s: int): State
    requires a in h.next && |h.lists| == CLASS_COUNT
  {
    if h.next[a] - r - 8 >= s + 32 then File(Cut(h, a, r + s + 8), r + s + 8) else h
  }

  lemma JoinBack(g: Geometry, h: State, a: int, r: int, s: int)
    requires Holding(g, h, a) && h.next[a] !in h.free && CanCut(g.last, h.next, a, r) && s >= BLOCK_SIZE_MIN
    requires r in File(Cut(h, a, r), a).next
    requires var u := TrimFree(File(Cut(h, a, r), a), r, s);
      r in u.prev ==> u.prev[r] in u.next && u.next[u.prev[r]] == r && r in u.next
    ensures var u := TrimFree(File(Cut(h, a, r), a), r, s);
      MergePrev(u, r) == (Rejoined(h, a, r, s), a)
  {
    hide Tiled, Filed, CoalescedBut, ValidGeometry;
    var x := Cut(h, a, r);
    var t := File(x, a);
    RFresh(g, h, a, r);
    if CanSplit(t, r, s) {
      JoinBackTail(g, h, a, r, s);
    } else {
      CutThenJoin(h.next, h.prev, h.free, a, r);
      PushThenDrop(h.lists, ClassOf(x, a), a);
      hide Push, Drop;
      assert Unfile(File(x, a), a) == x;
      assert Join(x, a) == h;
    }
  }

  lemma JoinBackTail(g: Geometry, h: State, a: int, r: int, s: int)
    requires Physical(g, h) && a in h.free && CanCut(g.last, h.next, a, r) && s >= BLOCK_SIZE_MIN
    requires r in File(Cut(h, a, r), a).next && CanSplit(File(Cut(h, a, r), a), r, s)
    requires var u := TrimFree(File(Cut(h, a, r), a), r, s);
      r in u.prev ==> u.prev[r] in u.next && u.next[u.prev[r]] == r && r in u.next
    ensures var u := TrimFree(File(Cut(h, a, r), a), r, s);
      MergePrev(u, r) == (Rejoined(h, a, r, s), a)
  {
    hide Tiled, ValidGeometry, Join, Unfile, Drop, ClassOf;
    var t, r2 := File(Cut(h, a, r), a), r + s + 8;
    RFresh(g, h, a, r);
    RFresh(g, h, a, r2);
    NextBlockFresh(g, h, a);
    MergeBackLeading(g, h, a, r, r2);
    LeadingPrev(h, a, r, r2);
    assert TrimFree(t, r, s) == File(Cut(t, r, r2), r2);
  }

  lemma LeadingPrev(h: State, a: int, r: int, r2: int)
    requires a in h.next && a in h.free && |h.lists| == CLASS_COUNT && a != r && a != r2 && r != r2
    requires r in File(Cut(h, a, r), a).next && h.next[a] != r
    requires r2 in Cut(File(Cut(h, a, r), a), r, r2).next
    ensures var u := File(Cut(File(Cut(h, a, r), a), r, r2), r2);
      r in u.prev && u.prev[r] == a && a in u.free
  {
    hide Push, ClassOf;
  }

  lemma TailMergesBack(g: Geometry, h: State, a: int, r: int, s: int)
    requires Holding(g, h, a) && h.next[a] !in h.free && CanCut(g.last, h.next, a, r) && s >= BLOCK_SIZE_MIN
    ensures var w := Rejoined(h, a, r, s);
      a in w.next && (w.next[a] in w.free ==> w.next[a] in w.next) && MergeNext(w, a) == h
  {
    hide Tiled, Filed, CoalescedBut;
    if h.next[a] - r - 8 >= s + 32 {
      var s2 := r + s - a;
      assert TrimFree(h, a, s2) == Rejoined(h, a, r, s);
      MergeUndoesTrim(g, h, a, s2);
    }
  }

  // tlsf_free of a block just obtained from tlsf_memalign restores the blocks and
  // the free lists, order included.
  lemma FreeAfterMemalign(g: Geometry, st: State, align: nat, size: nat)
    requires Inv(g, st) && Alignment(align) && Memalign(g, st, align, size).1 != 0
    ensures Inv(g, Memalign(g, st, align, size).0)
    ensures Freeable(g, Memalign(g, st, align, size).0, Memalign(g, st, align, size).1 - 16)
    ensures Free(g, Memalign(g, st, align, size).0, Memalign(g, st, align, size).1 - 16) == st
  {
    hide Tiled, Filed, CoalescedBut, Coalesced, Free, AlignedFrom, Gap, LegalGap, Asked, AlignedRequest;
    WantedIsAligned(align, size);
    var c, a, s, want := MemalignFrom(g, st, align, size);
    FreeAfterPlacing(g, st, c, a, align, s);
  }

  // Block a can be freed, and that leaves state st.
  ghost predicate FreeGivesBack(g: Geometry, t: State, a: int, st: State) {
    Inv(g, t) && Freeable(g, t, a) && Free(g, t, a) == st
  }

  lemma FreeAfterPlacing(g: Geometry, st: State, c: int, a: nat, align: nat, s: nat)
    requires s >= BLOCK_SIZE_MIN && Multiple8(s) && align > 0 && LegalGap(Gap(a + 16, align))
    requires 0 <= c < CLASS_COUNT == |st.lists| && st.lists[c] != [] && a == st.lists[c][0]
    requires a in st.next && a != g.last && c == ClassOf(st, a) && st.next[a] !in st.free
    requires Inv(g, st) && Holding(g, Take(st, c), a)
    ensures var (t, p) := AlignedFrom(Take(st, c), a, align, s); FreeGivesBack(g, t, p - 16, st)
  {
    hide Tiled, Filed, CoalescedBut, Coalesced, Free, Gap, TrimFree, Multiple8, LiveIn;
    var h := Take(st, c);
    AlignedFromPlaced(g, h, a, align, s);
    BlockBounds(g, st, a);
    var gap := Gap(a + 16, align);
    if gap != 0 && CanSplit(h, a, gap) {
      CutsAt(g, h, a, gap);
      LeadingCut(g, h, a, a + gap);
      FreeUndoesLeading(g, st, c, a + gap, s);
    } else {
      FreeUndoesUse(g, st, c, s);
    }
  }
}
