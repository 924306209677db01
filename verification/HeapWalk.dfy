// What the invariant says of the pool as a whole: its blocks in address order,
// the bytes they cover, the payloads callers hold, and the pool with nothing
// allocated.
module HeapWalk {
  import opened SizeClass
  import opened Heap
  import opened HeapOps
  import opened HeapCalls

  // The blocks tlsf_walk_pool visits from block a on: all before the sentinel.
  ghost function Walk(first: int, last: int, next: Links, prev: Links, a: int): seq<int>
    requires Shaped(first, last, next, prev) && Chained(last, next, prev) && a in next
    decreases last - a
  {
    if a == last then [] else [a] + Walk(first, last, next, prev, next[a])
  }

  // w lists the blocks from a on, each once, in address order.
  ghost predicate InOrderFrom(next: Links, last: int, a: int, w: seq<int>) {
    && (forall i, j :: 0 <= i < j < |w| ==> w[i] < w[j])
    && (forall b :: b in w <==> b in next && a <= b && b != last)
  }

  // The walk visits every block from a on exactly once, in address order.
  lemma {:induction false} WalkVisits(first: int, last: int, next: Links, prev: Links, a: int)
    requires Shaped(first, last, next, prev) && Chained(last, next, prev) && a in next && Separate(next)
    ensures InOrderFrom(next, last, a, Walk(first, last, next, prev, a))
    decreases last - a
  {
    if a != last {
      var w := Walk(first, last, next, prev, next[a]);
      WalkVisits(first, last, next, prev, next[a]);
      hide InOrderFrom;
      NothingSkipped(next, a);
      OrderGrows(next, last, a, w);
    }
  }

  lemma OrderGrows(next: Links, last: int, a: int, w: seq<int>)
    requires a in next && a != last && a < next[a] && InOrderFrom(next, last, next[a], w)
    requires forall b :: b in next && a < b ==> next[a] <= b
    ensures InOrderFrom(next, last, a, [a] + w)
  {
    forall i, j | 0 <= i < j < |[a] + w|
      ensures ([a] + w)[i] < ([a] + w)[j]
    {
      if i == 0 { assert w[j - 1] in w; }
    }
  }

  lemma NothingSkipped(next: Links, a: int)
    requires Separate(next) && a in next
    ensures forall b :: b in next && a < b ==> next[a] <= b
  {
  }

  // Bytes taken by a run of blocks, headers included.
  ghost function Footprint(next: Links, w: seq<int>): int
    requires forall b :: b in w ==> b in next
  {
    if w == [] then 0 else Size(next, w[0]) + BLOCK_HEADER_OVERHEAD + Footprint(next, w[1..])
  }

  lemma {:induction false} WalkFootprint(first: int, last: int, next: Links, prev: Links, a: int)
    requires Shaped(first, last, next, prev) && Chained(last, next, prev) && a in next && Separate(next)
    ensures var w := Walk(first, last, next, prev, a);
      (forall b :: b in w ==> b in next) && Footprint(next, w) == last - a
    decreases last - a
  {
    WalkVisits(first, last, next, prev, a);
    if a != last {
      var w := Walk(first, last, next, prev, next[a]);
      WalkFootprint(first, last, next, prev, next[a]);
      assert ([a] + w)[1..] == w;
    }
  }

  // Every block but the sentinel once, in address order, and together as many
  // bytes as there are between the first header and the sentinel.
  ghost predicate AccountsForPool(g: Geometry, st: State)
    requires Physical(g, st)
  {
    var w := Walk(g.first, g.last, st.next, st.prev, g.first);
    && InOrderFrom(st.next, g.last, g.first, w)
    && Footprint(st.next, w) == g.last - g.first
  }

  // Whatever the allocator has done, the walk accounts for every byte between
  // the first header and the sentinel.
  lemma PoolIsConserved(g: Geometry, st: State)
    requires Inv(g, st)
    ensures AccountsForPool(g, st)
  {
    WalkVisits(g.first, g.last, st.next, st.prev, g.first);
    WalkFootprint(g.first, g.last, st.next, st.prev, g.first);
  }

  // ---- Payloads ----

  // The bytes behind a live pointer, prev_phys_block overlay of the next block
  // included.
  ghost predicate InPayload(st: State, a: int, x: int) {
    Used(st, a) && a + 16 <= x < st.next[a] + 8
  }

  // Live payloads are 8-aligned, at least 24 bytes, lie inside the pool and
  // share no byte.
  lemma PayloadsAreSafe(g: Geometry, st: State, a: int, b: int, x: int)
    requires Inv(g, st) && Freeable(g, st, a) && Freeable(g, st, b)
    requires InPayload(st, a, x)
    ensures Multiple8(a + 16) && Size(st.next, a) >= BLOCK_SIZE_MIN
    ensures g.first + 16 <= x < g.last + 8
    ensures InPayload(st, b, x) ==> a == b
  {
    hide Filed, Coalesced;
    assert Multiple8(a);
    assert st.next[a] in st.next;
    if InPayload(st, b, x) && a != b { InOrder(st.next, a, b); }
  }

  lemma InOrder(next: Links, a: int, b: int)
    requires Separate(next) && a in next && b in next && a != b
    ensures next[a] <= b || next[b] <= a
  {
  }

  // No payload byte belongs to the header of any block: the size word of b is
  // at b + 8, and its list links, when free, at b + 16 and b + 24.
  lemma PayloadAvoidsHeaders(g: Geometry, st: State, a: int, b: int, x: int)
    requires Inv(g, st) && Freeable(g, st, a) && InPayload(st, a, x) && b in st.next
    ensures !(b + 8 <= x < b + 16)
    ensures b in st.free ==> !(b + 16 <= x < b + 32)
  {
    hide Filed, Coalesced;
    if a != b {
      InOrder(st.next, a, b);
      if b in st.free { assert st.next[b] >= b + BLOCK_HEADER_SIZE; }
    }
  }

  // ---- Nothing allocated ----

  // One free block as large as the pool, alone in its list.
  ghost function Fresh(g: Geometry): State
    requires g.first < g.last
  {
    var next := map[g.first := g.last, g.last := g.last + BLOCK_HEADER_OVERHEAD];
    var bare := State(next, map[g.last := g.first], {g.first}, seq(CLASS_COUNT, i => []));
    File(bare, g.first)
  }

  ghost predicate NothingLive(g: Geometry, st: State) {
    forall a :: !Freeable(g, st, a)
  }

  lemma {:induction false} FreshIsInv(g: Geometry)
    requires ValidGeometry(g)
    ensures Inv(g, Fresh(g)) && NothingLive(g, Fresh(g))
  {
    hide Multiple8;
    var next := map[g.first := g.last, g.last := g.last + BLOCK_HEADER_OVERHEAD];
    var prev := map[g.last := g.first];
    var bare := State(next, prev, {g.first}, seq(CLASS_COUNT, i => []));
    FreshTiled(g.first, g.last, next, prev);
    assert Physical(g, bare);
    ClassInRange(g, bare, g.first);
    assert Filed(next, {g.first}, bare.lists, {g.first});
    PushFiled(next, {g.first}, bare.lists, {g.first}, g.first, ClassOf(bare, g.first));
    assert {g.first} - {g.first} == {};
  }

  lemma FreshTiled(first: int, last: int, next: Links, prev: Links)
    requires Multiple8(first) && Multiple8(last) && first + BLOCK_HEADER_SIZE <= last
    requires next == map[first := last, last := last + BLOCK_HEADER_OVERHEAD] && prev == map[last := first]
    ensures Tiled(first, last, next, prev)
  {
  }

  // When callers hold nothing, coalescing has left one block: the state is the
  // fresh one, whatever came before.
  lemma NothingLiveIsFresh(g: Geometry, st: State)
    requires Inv(g, st) && NothingLive(g, st)
    ensures st == Fresh(g)
  {
    OnlyBlock(g, st);
    OnlyListed(g, st);
  }

  lemma OnlyBlock(g: Geometry, st: State)
    requires Inv(g, st) && NothingLive(g, st)
    ensures st.next == map[g.first := g.last, g.last := g.last + BLOCK_HEADER_OVERHEAD]
    ensures st.prev == map[g.last := g.first] && st.free == {g.first}
  {
    hide Filed, Multiple8;
    assert !Freeable(g, st, g.first);
    assert g.first in st.free;
    var n := st.next[g.first];
    assert n in st.next && n !in st.free;
    assert !Freeable(g, st, n);
    assert n == g.last;
    forall a | a in st.next
      ensures a == g.first || a == g.last
    {
      if a != g.first { assert st.next[g.first] <= a; }
    }
    assert st.prev[n] == g.first;
    assert st.next.Keys == {g.first, g.last};
    forall a
      ensures a in st.prev <==> a == g.last
    {
      assert a in st.prev <==> a in st.next && a != g.first;
    }
    assert st.prev.Keys == {g.last};
    assert forall a :: a in st.free ==> a in st.next.Keys;
  }

  lemma OnlyListed(g: Geometry, st: State)
    requires Physical(g, st) && st.free == {g.first} && g.first in st.next
    requires Filed(st.next, st.free, st.lists, {})
    ensures st.lists == Push(seq(CLASS_COUNT, i => []), ClassOf(st, g.first), g.first)
  {
    hide Tiled;
    var k := ClassOf(st, g.first);
    var alone: Lists := Push(seq(CLASS_COUNT, i => []), k, g.first);
    assert g.first !in {};
    var c :| 0 <= c < |st.lists| && InClass(st.next, g.first, c) && g.first in st.lists[c];
    assert c == k;
    forall i | 0 <= i < CLASS_COUNT
      ensures st.lists[i] == alone[i]
    {
      if i == k {
        Singleton(st.lists[k], g.first);
      } else {
        assert alone[i] == [];
        if st.lists[i] != [] { ListedAs(st.next, st.free, st.lists, i, g.first); }
      }
    }
  }

  lemma ListedAs(next: Links, free: set<int>, lists: Lists, c: int, a: int)
    requires Typed(next, free, lists, {}) && free == {a} && 0 <= c < |lists| && lists[c] != []
    ensures InClass(next, a, c)
  {
    assert lists[c][0] in free;
  }

  lemma Singleton(l: seq<int>, a: int)
    requires a in l && (forall i :: 0 <= i < |l| ==> l[i] == a)
    requires forall i, j :: 0 <= i < j < |l| ==> l[i] != l[j]
    ensures l == [a]
  {
    assert l[0] == a && l[|l| - 1] == a;
  }

  // A fresh pool serves exactly the requests that its one block reaches.
  lemma FreshPoolServes(g: Geometry, size: nat)
    requires ValidGeometry(g)
    ensures (FreshIsInv(g); Malloc(g, Fresh(g), size).1 != 0)
       <==> AdjustRequestSize(size, ALIGN_SIZE) != 0
            && Reaches(g.last - g.first - 8, AdjustRequestSize(size, ALIGN_SIZE))
  {
    hide Inv, Fresh, Malloc, AdjustRequestSize, Reaches;
    FreshIsInv(g);
    FreshFree(g);
    MallocRefusal(g, Fresh(g), size);
  }

  lemma FreshFree(g: Geometry)
    requires g.first < g.last
    ensures Fresh(g).free == {g.first} && g.first in Fresh(g).next && Fresh(g).next[g.first] == g.last
  {
  }
}
