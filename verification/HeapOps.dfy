// The allocator's operations on the abstract heap, step by step as
// sys/hive/mm/tlsf.c takes them, and what every step keeps.
module HeapOps {
  import opened Param
  import opened SizeClass
  import opened Heap

  // nul: address of control->block_null; first: header of the first block (its
  // prev_phys_block word lies just below the pool); last: header of the
  // zero-size sentinel.
  datatype Geometry = Geometry(nul: int, first: int, last: int)

  datatype State = State(next: Links, prev: Links, free: set<int>, lists: Lists)

  ghost predicate ValidGeometry(g: Geometry) {
    && 0 < g.nul && Multiple8(g.nul) && g.nul + BLOCK_HEADER_SIZE <= g.first
    && Multiple8(g.first) && Multiple8(g.last)
    && BLOCK_SIZE_MIN <= g.last - g.first - 8 < BLOCK_SIZE_MAX
    && g.last + 16 <= SIZE_T_RANGE
  }

  ghost predicate Physical(g: Geometry, st: State) {
    && ValidGeometry(g) && Tiled(g.first, g.last, st.next, st.prev) && |st.lists| == CLASS_COUNT
    && forall a :: a in st.free ==> a in st.next && a != g.last
  }

  // The invariant between calls.
  ghost predicate Inv(g: Geometry, st: State) {
    && Physical(g, st)
    && Filed(st.next, st.free, st.lists, {})
    && Coalesced(st.next, st.free)
  }

  // The invariant while an operation holds the free block x in hand.
  ghost predicate Holding(g: Geometry, st: State, x: int) {
    && Physical(g, st) && x in st.free
    && Filed(st.next, st.free, st.lists, {x})
    && CoalescedBut(st.next, st.free, x)
  }

  ghost predicate Used(st: State, a: int) {
    a in st.next && a !in st.free
  }

  // ---- Steps ----

  function Cut(st: State, a: int, r: int): State
    requires a in st.next
  {
    State(SplitNext(st.next, a, r), SplitPrev(st.next, st.prev, a, r), st.free + {r}, st.lists)
  }

  function Join(st: State, p: int): State
    requires p in st.next && st.next[p] in st.next
  {
    State(AbsorbNext(st.next, p), AbsorbPrev(st.next, st.prev, p), st.free - {st.next[p]}, st.lists)
  }

  // The list that mapping_insert names for a block.
  function ClassOf(st: State, a: int): (c: int)
    requires a in st.next
    ensures 0 <= c < CLASS_COUNT
  {
    if Size(st.next, a) >= 0 && Class(Size(st.next, a)) < CLASS_COUNT then Class(Size(st.next, a)) else 0
  }

  // Put a block at the head of its list; take it out of its list.
  function File(st: State, a: int): State
    requires a in st.next && |st.lists| == CLASS_COUNT
  {
    st.(lists := Push(st.lists, ClassOf(st, a), a))
  }

  function Unfile(st: State, a: int): State
    requires a in st.next && |st.lists| == CLASS_COUNT
  {
    st.(lists := Drop(st.lists, ClassOf(st, a), a))
  }

  lemma ClassInRange(g: Geometry, st: State, a: int)
    requires Physical(g, st) && a in st.next
    ensures 0 <= Size(st.next, a) < BLOCK_SIZE_MAX
    ensures InClass(st.next, a, ClassOf(st, a))
  {
    if a != g.last { assert st.next[a] in st.next; }
    MappingInsertIsClass(Size(st.next, a));
  }

  lemma CutPhysical(g: Geometry, st: State, a: int, r: int)
    requires Physical(g, st) && CanCut(g.last, st.next, a, r) && Multiple8(r)
    ensures Physical(g, Cut(st, a, r)) && r !in st.next && r != g.last
  {
    SplitTiled(g.first, g.last, st.next, st.prev, a, r);
  }

  lemma JoinPhysical(g: Geometry, st: State, p: int)
    requires Physical(g, st) && p in st.next && p != g.last && st.next[p] in st.free
    ensures Physical(g, Join(st, p))
  {
    AbsorbTiled(g.first, g.last, st.next, st.prev, p);
  }

  // ---- Taking a block from the lists ----

  // The linear scan that the two-level bitmap search stands for: the first
  // non-empty list at or after c, CLASS_COUNT when there is none.
  function FirstFrom(lists: Lists, c: int): (k: int)
    requires 0 <= c <= |lists|
    ensures c <= k <= |lists|
    ensures k < |lists| ==> lists[k] != []
    ensures forall j :: c <= j < k ==> lists[j] == []
    decreases |lists| - c
  {
    if c == |lists| || lists[c] != [] then c else FirstFrom(lists, c + 1)
  }

  // The list block_locate_free takes its block from.
  function Found(lists: Lists, s: nat): (k: int)
    requires |lists| == CLASS_COUNT && s < BLOCK_SIZE_MAX
    ensures 0 <= k <= CLASS_COUNT
    ensures k < CLASS_COUNT ==> lists[k] != []
  {
    if s == 0 || Class(SearchSize(s)) >= CLASS_COUNT then CLASS_COUNT
    else FirstFrom(lists, Class(SearchSize(s)))
  }

  function Take(st: State, c: int): State
    requires 0 <= c < |st.lists| && st.lists[c] != []
  {
    st.(lists := Drop(st.lists, c, st.lists[c][0]))
  }

  lemma TakeHolding(g: Geometry, st: State, s: nat)
    requires Inv(g, st) && Multiple8(s) && s < BLOCK_SIZE_MAX
    requires Found(st.lists, s) < CLASS_COUNT
    ensures var c := Found(st.lists, s); var a := st.lists[c][0];
      && Holding(g, Take(st, c), a) && Size(st.next, a) >= s
      && st.next[a] !in st.free && InClass(st.next, a, c)
      && Take(st, c) == Unfile(st, a)
  {
    var c := Found(st.lists, s);
    var a := st.lists[c][0];
    assert InClass(st.next, a, c);
    DropFiled(st.next, st.free, st.lists, {}, a, c);
    assert {} + {a} == {a};
    SearchedClassFits(s, Size(st.next, a));
  }

  // ---- Trimming ----

  predicate CanSplit(st: State, a: int, s: int)
    requires a in st.next
  {
    Size(st.next, a) >= BLOCK_HEADER_SIZE + s
  }

  function TrimFree(st: State, a: int, s: int): State
    requires a in st.next && |st.lists| == CLASS_COUNT
  {
    if CanSplit(st, a, s) then File(Cut(st, a, a + s + 8), a + s + 8) else st
  }

  // Cutting block a leaves it and the new block r in hand.
  lemma CutHolding(g: Geometry, st: State, a: int, r: int)
    requires Holding(g, st, a) && st.next[a] !in st.free
    requires CanCut(g.last, st.next, a, r) && Multiple8(r)
    ensures Physical(g, Cut(st, a, r)) && r !in st.next
    ensures Filed(Cut(st, a, r).next, Cut(st, a, r).free, st.lists, {a, r})
    ensures CoalescedBut(Cut(st, a, r).next, Cut(st, a, r).free, a)
  {
    CutPhysical(g, st, a, r);
    CutFiled(st.next, st.free, st.lists, {a}, a, r);
    assert {a} + {r} == {a, r};
    CutCoalesced(g.last, st.next, st.prev, st.free, a, r);
  }

  lemma CutFiled(next: Links, free: set<int>, lists: Lists, hand: set<int>, a: int, r: int)
    requires Filed(next, free, lists, hand) && (a in hand || a !in free)
    requires a in next && r !in next && r !in free
    requires forall b :: b in free ==> b in next
    ensures Filed(SplitNext(next, a, r), free + {r}, lists, hand + {r})
  {
    ResizeFiled(next, SplitNext(next, a, r), free, free + {r}, lists, hand, hand + {r});
  }

  lemma CutCoalesced(last: int, next: Links, prev: Links, free: set<int>, a: int, r: int)
    requires Chained(last, next, prev) && a in next && a != last && r !in next
    requires forall b :: b in free ==> b in next && b != last
    requires CoalescedBut(next, free, a) && next[a] !in free
    ensures CoalescedBut(SplitNext(next, a, r), free + {r}, a)
    ensures Coalesced(next, free) ==> CoalescedBut(SplitNext(next, a, r), free + {r}, r)
  {
    var next', free' := SplitNext(next, a, r), free + {r};
    forall b | b in free' && b in next' && b != a
      ensures next'[b] in free' ==> next[b] == a
      ensures Coalesced(next, free) ==> next'[b] !in free'
    {
      NextStays(last, next, prev, if b == r then a else b);
      hide Chained;
      assert next'[b] == next[if b == r then a else b];
    }
    hide Chained;
    assert next'[a] == r;
  }

  lemma NextStays(last: int, next: Links, prev: Links, b: int)
    requires Chained(last, next, prev) && b in next && b != last
    ensures next[b] in next
  {
  }

  lemma SumAligned(next: Links, a: int, s: int)
    requires Aligned(next) && a in next && Multiple8(s)
    ensures Multiple8(a + s + 8)
  {
    assert Multiple8(a);
  }

  lemma CutPlace(g: Geometry, st: State, a: int, s: int)
    requires Physical(g, st) && a in st.next && a != g.last && Multiple8(s) && s >= BLOCK_SIZE_MIN
    ensures CanSplit(st, a, s) ==> CanCut(g.last, st.next, a, a + s + 8) && Multiple8(a + s + 8)
  {
    SumAligned(st.next, a, s);
  }

  lemma TrimFreeHolding(g: Geometry, st: State, a: int, s: int)
    requires Holding(g, st, a) && st.next[a] !in st.free
    requires Multiple8(s) && s >= BLOCK_SIZE_MIN
    ensures Holding(g, TrimFree(st, a, s), a)
  {
    hide Tiled, Filed, CoalescedBut, Multiple8;
    CutPlace(g, st, a, s);
    if CanSplit(st, a, s) {
      TrimmedHolding(g, st, a, a + s + 8);
    }
  }

  lemma TrimmedHolding(g: Geometry, st: State, a: int, r: int)
    requires Holding(g, st, a) && st.next[a] !in st.free
    requires CanCut(g.last, st.next, a, r) && Multiple8(r)
    ensures Holding(g, File(Cut(st, a, r), r), a)
  {
    CutHolding(g, st, a, r);
    FileHolding(g, Cut(st, a, r), a, r);
  }

  lemma FileHolding(g: Geometry, st: State, a: int, r: int)
    requires Physical(g, st) && a in st.free && r in st.free && a != r
    requires Filed(st.next, st.free, st.lists, {a, r})
    requires CoalescedBut(st.next, st.free, a)
    ensures Holding(g, File(st, r), a)
  {
    ClassInRange(g, st, r);
    PushFiled(st.next, st.free, st.lists, {a, r}, r, ClassOf(st, r));
    assert {a, r} - {r} == {a};
  }

  // Handing the block in hand to the caller.
  lemma UseHeld(g: Geometry, st: State, a: int)
    requires Holding(g, st, a)
    ensures Inv(g, st.(free := st.free - {a}))
  {
    MarkFiled(st.next, st.free, st.lists, {a}, a);
    assert {a} - {a} == {};
  }

  // ---- Merging ----

  // A block being freed joins a free predecessor, then a free successor.
  function MergePrev(st: State, a: int): (State, int)
    requires |st.lists| == CLASS_COUNT
    requires a in st.prev ==> st.prev[a] in st.next && st.next[st.prev[a]] == a && a in st.next
  {
    if a in st.prev && st.prev[a] in st.free then
      (Join(Unfile(st, st.prev[a]), st.prev[a]), st.prev[a])
    else (st, a)
  }

  function MergeNext(st: State, a: int): State
    requires |st.lists| == CLASS_COUNT
    requires a in st.next && (st.next[a] in st.free ==> st.next[a] in st.next)
  {
    if st.next[a] in st.free then Join(Unfile(st, st.next[a]), a) else st
  }

  lemma PrevChained(g: Geometry, st: State, a: int)
    requires Physical(g, st) && a in st.prev
    ensures a in st.next && st.prev[a] in st.next && st.next[st.prev[a]] == a && st.prev[a] < a
  {
  }

  ghost predicate PrevIsUsed(st: State, a: int) {
    a in st.prev ==> st.prev[a] !in st.free
  }

  lemma MarkHolding(g: Geometry, st: State, a: int)
    requires Inv(g, st) && Used(st, a) && a != g.last
    ensures Holding(g, st.(free := st.free + {a}), a)
  {
    MarkFiled(st.next, st.free, st.lists, {}, a);
    assert {} + {a} == {a};
  }

  lemma UnfileFiled(g: Geometry, st: State, hand: set<int>, a: int)
    requires Physical(g, st) && Filed(st.next, st.free, st.lists, hand)
    requires a in st.free && a !in hand
    ensures Filed(st.next, st.free, Unfile(st, a).lists, hand + {a})
  {
    ClassInRange(g, st, a);
    DropFiled(st.next, st.free, st.lists, hand, a, ClassOf(st, a));
  }

  lemma JoinFiled(next: Links, free: set<int>, lists: Lists, hand: set<int>, p: int)
    requires Filed(next, free, lists, hand)
    requires p in next && next[p] in next && (p in hand || p !in free) && next[p] in hand && p != next[p]
    requires forall b :: b in free ==> b in next
    ensures Filed(AbsorbNext(next, p), free - {next[p]}, lists, hand - {next[p]})
  {
    ResizeFiled(next, AbsorbNext(next, p), free, free - {next[p]}, lists, hand, hand - {next[p]});
  }

  // Joining p with its successor n leaves no free pair outside p, whether the
  // block in hand was p or n.
  lemma JoinCoalesced(last: int, next: Links, prev: Links, free: set<int>, p: int, x: int)
    requires Chained(last, next, prev)
    requires p in next && p != last && next[p] in next && next[p] != last
    requires forall b :: b in free ==> b in next && b != last
    requires (x == p || x == next[p]) && CoalescedBut(next, free, x)
    ensures CoalescedBut(AbsorbNext(next, p), free - {next[p]}, p)
  {
  }

  lemma JoinedNeighbours(last: int, next: Links, prev: Links, free: set<int>, p: int)
    requires Chained(last, next, prev)
    requires p in next && p != last && next[p] in next && next[p] != last && p < next[p] < next[next[p]]
    requires p in prev ==> prev[p] < p
    requires p in free && next[p] in free
    ensures CoalescedBut(next, free, next[p]) && p in prev ==> prev[p] !in free
    ensures CoalescedBut(next, free, p) ==> AbsorbNext(next, p)[p] !in free
  {
  }

  lemma MergePrevHolding(g: Geometry, st: State, a: int)
    requires Holding(g, st, a)
    ensures var (t, p) := MergePrev(st, a); Holding(g, t, p) && PrevIsUsed(t, p)
  {
    hide Filed, Coalesced;
    if a in st.prev && st.prev[a] in st.free {
      var p := st.prev[a];
      UnfileFiled(g, st, {a}, p);
      JoinPhysical(g, Unfile(st, p), p);
      JoinFiled(st.next, st.free, Unfile(st, p).lists, {a} + {p}, p);
      assert {a} + {p} - {a} == {p};
      JoinCoalesced(g.last, st.next, st.prev, st.free, p, a);
      JoinedNeighbours(g.last, st.next, st.prev, st.free, p);
    }
  }

  lemma MergeNextHolding(g: Geometry, st: State, a: int)
    requires Holding(g, st, a)
    ensures var t := MergeNext(st, a); Holding(g, t, a) && t.next[a] !in t.free
    ensures PrevIsUsed(st, a) ==> PrevIsUsed(MergeNext(st, a), a)
  {
    hide Filed, Coalesced;
    var n := st.next[a];
    if n in st.free {
      UnfileFiled(g, st, {a}, n);
      JoinPhysical(g, Unfile(st, n), a);
      JoinFiled(st.next, st.free, Unfile(st, n).lists, {a} + {n}, a);
      assert {a} + {n} - {n} == {a};
      JoinCoalesced(g.last, st.next, st.prev, st.free, a, a);
      JoinedNeighbours(g.last, st.next, st.prev, st.free, a);
    }
  }

  lemma FileInv(g: Geometry, st: State, a: int)
    requires Holding(g, st, a) && st.next[a] !in st.free && PrevIsUsed(st, a)
    ensures Inv(g, File(st, a))
  {
    ClassInRange(g, st, a);
    PushFiled(st.next, st.free, st.lists, {a}, a, ClassOf(st, a));
    assert {a} - {a} == {};
    NeighboursUsed(g, st, a);
  }

  lemma NeighboursUsed(g: Geometry, st: State, a: int)
    requires Physical(g, st) && CoalescedBut(st.next, st.free, a)
    requires a in st.free && st.next[a] !in st.free && PrevIsUsed(st, a)
    ensures Coalesced(st.next, st.free)
  {
  }
}
