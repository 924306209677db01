// When a group of stores has brought memory in line with the next abstract
// state: one lemma for each group the allocator performs.
module HeapCommit {
  import opened SizeClass
  import opened Heap
  import opened HeapOps
  import opened Header
  import opened HeapMemory

  // Memory m represents abstract state st.
  ghost predicate Holds(g: Geometry, st: State, m: Mem) {
    Represents(m, g.nul, st.next, st.prev, st.free, st.lists)
  }

  // The size word of block a says what st says.
  ghost predicate TagFits(st: State, m: Mem, a: int)
    requires a in st.next
  {
    TaggedAt(m, st.next, st.prev, st.free, a)
  }

  ghost predicate Kept(st: State, m: Mem, m': Mem, but: int) {
    PayloadsKept(m, m', st.next, st.free, but)
  }

  // Blocks other than `but` that were used before are used after, as long.
  ghost predicate StaysUsed(st: State, t: State, but: int) {
    forall b :: b in st.next && b !in st.free && b != but ==>
      b in t.next && b !in t.free && t.next[b] == st.next[b]
  }

  lemma KeptTrans(st: State, t: State, m: Mem, m1: Mem, m2: Mem, but: int)
    requires Kept(st, m, m1, but) && Kept(t, m1, m2, but) && StaysUsed(st, t, but)
    ensures Kept(st, m, m2, but)
  {
    forall b | b in st.next && b !in st.free && b != but ensures PayloadKept(m, m2, b, st.next[b]) {
      assert PayloadKept(m, m1, b, st.next[b]) && PayloadKept(m1, m2, b, t.next[b]);
    }
  }

  // The words the allocator may touch: those of the pool and the two link fields
  // of block_null.
  predicate Owns(g: Geometry, x: int) {
    x == g.nul + 16 || x == g.nul + 24 || (g.first + 8 <= x <= g.last + 8 && Multiple8(x))
  }

  // The allocator's memory is exactly these words; nothing else is within its
  // reach.
  ghost predicate Mapped(g: Geometry, m: Mem) {
    forall x :: x in m <==> Owns(g, x)
  }

  lemma MappedAt(g: Geometry, m: Mem, x: int)
    requires Mapped(g, m) && g.first + 8 <= x <= g.last + 8 && Multiple8(x)
    ensures x in m
  {
  }

  lemma MappedKept(g: Geometry, m: Mem, m': Mem)
    requires Mapped(g, m) && m'.Keys == m.Keys
    ensures Mapped(g, m')
  {
    hide Owns;
    assert forall x :: x in m.Keys <==> x in m'.Keys;
  }

  // ---- Where things are ----

  lemma NextOf(g: Geometry, st: State, a: int)
    requires Physical(g, st) && a in st.next && a != g.last
    ensures st.next[a] in st.next && st.next[a] in st.prev && st.prev[st.next[a]] == a
    ensures g.first <= a && a + 32 <= st.next[a] <= g.last
  {
  }

  lemma PrevOf(g: Geometry, st: State, a: int)
    requires Physical(g, st) && a in st.prev
    ensures a in st.next && st.prev[a] in st.next && st.next[st.prev[a]] == a && st.prev[a] != g.last
    ensures g.first <= st.prev[a] && st.prev[a] + 32 <= a
  {
  }

  lemma HeadersAligned(g: Geometry, st: State, a: int)
    requires Physical(g, st) && a in st.next
    ensures Multiple8(a) && Multiple8(a + 8) && Multiple8(a + 16) && Multiple8(a + 24)
  {
    assert Multiple8(a);
  }

  lemma SizeAligned(g: Geometry, st: State, a: int)
    requires Physical(g, st) && a in st.next
    ensures Multiple8(Size(st.next, a))
  {
    if a != g.last { NextOf(g, st, a); }
    AlignedGap(st.next, a, g.last);
  }

  lemma AlignedGap(next: Links, a: int, last: int)
    requires Aligned(next) && a in next && (next[a] in next || next[a] == a + 8)
    ensures Multiple8(Size(next, a))
  {
  }

  // The words of block a that the allocator may store to.
  lemma BlockMapped(g: Geometry, st: State, m: Mem, a: int)
    requires Physical(g, st) && Mapped(g, m) && a in st.next && a != g.last
    ensures a + 8 in m && a + 16 in m && a + 24 in m && st.next[a] in m && st.next[a] + 8 in m
  {
    hide Tiled, Mapped, Multiple8;
    NextOf(g, st, a);
    HeadersAligned(g, st, a);
    HeadersAligned(g, st, st.next[a]);
    MappedAt(g, m, a + 8);
    MappedAt(g, m, a + 16);
    MappedAt(g, m, a + 24);
    MappedAt(g, m, st.next[a]);
    MappedAt(g, m, st.next[a] + 8);
  }

  // What the allocator reads from a block's size word.
  lemma ReadTag(g: Geometry, st: State, m: Mem, a: int)
    requires Holds(g, st, m) && a in st.next
    ensures a + 8 in m && BlockSize(m[a + 8]) == Size(st.next, a)
    ensures FreeBit(m[a + 8]) <==> a in st.free
    ensures PrevFreeBit(m[a + 8]) <==> a in st.prev && st.prev[a] in st.free
  {
    assert TaggedAt(m, st.next, st.prev, st.free, a);
  }

  lemma ReadFooter(g: Geometry, st: State, m: Mem, a: int)
    requires Holds(g, st, m) && a in st.free && a in st.next
    ensures st.next[a] in m && m[st.next[a]] == a
  {
  }

  lemma ReadLinks(g: Geometry, st: State, m: Mem, c: int, i: int)
    requires Holds(g, st, m) && 0 <= c < |st.lists| && 0 <= i < |st.lists[c]|
    ensures LinkedAt(m, g.nul, st.lists[c], i)
  {
    assert Linked(m, g.nul, st.lists[c]);
  }

  // ---- Marking ----

  lemma MarkFreeCommit(g: Geometry, st: State, m: Mem, m': Mem, a: int)
    requires Physical(g, st) && Used(st, a) && a != g.last && Holds(g, st, m)
    requires Filed(st.next, st.free, st.lists, {})
    requires WritesOnly(m, m', {a + 8, st.next[a], st.next[a] + 8})
    requires st.next[a] in st.next && TaggedAt(m', st.next, st.prev, st.free + {a}, a)
    requires TaggedAt(m', st.next, st.prev, st.free + {a}, st.next[a])
    requires st.next[a] in m' && m'[st.next[a]] == a
    ensures Holds(g, st.(free := st.free + {a}), m')
    ensures Kept(st, m, m', a)
  {
    hide Tiled, Typed, Distinct, Complete, Tagged, TaggedAt, AllLinked, PayloadsKept;
    NextOf(g, st, a);
    var w := {a + 8, st.next[a], st.next[a] + 8};
    MarkWords(st.next, a);
    hide Footed, HeaderWords, WritesOnly;
    MarkWrites(g, st, m, m', {}, a, st.free + {a}, w);
    FootedWith(m', st.next, st.free, a);
  }

  lemma MarkUsedCommit(g: Geometry, st: State, m: Mem, m': Mem, a: int)
    requires Physical(g, st) && a in st.free && Holds(g, st, m)
    requires Filed(st.next, st.free, st.lists, {a})
    requires st.next[a] in st.next && WritesOnly(m, m', {a + 8, st.next[a] + 8})
    requires TaggedAt(m', st.next, st.prev, st.free - {a}, a)
    requires TaggedAt(m', st.next, st.prev, st.free - {a}, st.next[a])
    ensures Holds(g, st.(free := st.free - {a}), m')
    ensures Kept(st, m, m', a)
  {
    hide Tiled, Typed, Distinct, Complete, Tagged, TaggedAt, AllLinked, PayloadsKept;
    NextOf(g, st, a);
    var w := {a + 8, st.next[a] + 8};
    MarkWords(st.next, a);
    hide Footed, HeaderWords, WritesOnly;
    MarkWrites(g, st, m, m', {a}, a, st.free - {a}, w);
  }

  lemma MarkWrites(g: Geometry, st: State, m: Mem, m': Mem, hand: set<int>, a: int, free': set<int>, w: set<int>)
    requires Physical(g, st) && a in st.next && a != g.last && Holds(g, st, m)
    requires Filed(st.next, st.free, st.lists, hand) && (a in hand || a !in st.free)
    requires HeaderWords(st.next, a, w) && WritesOnly(m, m', w)
    requires w <= {a + 8, st.next[a], st.next[a] + 8}
    requires forall x :: x != a ==> (x in st.free <==> x in free')
    requires st.next[a] in st.next && TaggedAt(m', st.next, st.prev, free', a)
    requires TaggedAt(m', st.next, st.prev, free', st.next[a])
    ensures Tagged(m', st.next, st.prev, free') && Footed(m', st.next, st.free - {a})
    ensures AllLinked(m', g.nul, st.lists) && Kept(st, m, m', a)
  {
    hide Shaped, Chained, Separate, Aligned, Typed, Distinct, Complete, Tagged, TaggedAt;
    hide AllLinked, PayloadsKept, Footed, HeaderWords;
    NextOf(g, st, a);
    HeaderWritesKeepLinks(g.first, g.last, st.next, st.prev, st.free, st.lists, hand, m, m', g.nul, a, w);
    HeaderWritesKeepPayloads(st.next, st.free, m, m', a, w);
    FootersKept(g.first, g.last, st.next, st.prev, st.free, m, m', a, w);
    forall b | b in st.next && b != a && b != st.next[a]
      ensures b + 8 in m' && m'[b + 8] == m[b + 8]
    {
      OtherHeader(g, st, m, a, b);
    }
    MarkTagged(g.last, st.next, st.prev, st.free, free', m, m', a);
  }

  lemma MarkWords(next: Links, a: int)
    requires a in next && next[a] in next && a + 32 <= next[a]
    ensures HeaderWords(next, a, {a + 8, next[a], next[a] + 8})
    ensures HeaderWords(next, a, {a + 8, next[a] + 8})
  {
  }

  lemma OtherHeader(g: Geometry, st: State, m: Mem, a: int, b: int)
    requires Physical(g, st) && Tagged(m, st.next, st.prev, st.free)
    requires a in st.next && a != g.last && b in st.next && b != a && b != st.next[a]
    ensures b + 8 in m && b + 8 != st.next[a] && b + 8 != a + 8 && b + 8 != st.next[a] + 8
  {
    NextOf(g, st, a);
    assert TaggedAt(m, st.next, st.prev, st.free, b);
    Apart(g.first, g.last, st.next, st.prev, b, st.next[a]);
  }

  lemma FootedWith(m: Mem, next: Links, free: set<int>, a: int)
    requires Footed(m, next, free - {a}) && a in next && next[a] in m && m[next[a]] == a
    ensures Footed(m, next, free + {a})
  {
  }

  // ---- Cutting ----

  lemma CutWords(next: Links, a: int, r: int)
    requires a in next && next[a] in next && a + 32 <= r && r + 32 <= next[a]
    ensures HeaderWords(next, a, {a + 8, r, r + 8, next[a], next[a] + 8})
  {
  }

  lemma CutCommit(g: Geometry, st: State, m: Mem, m': Mem, hand: set<int>, a: int, r: int)
    requires Physical(g, st) && Filed(st.next, st.free, st.lists, hand) && (a in hand || a !in st.free)
    requires CanCut(g.last, st.next, a, r) && st.next[a] in st.next && Holds(g, st, m)
    requires WritesOnly(m, m', {a + 8, r, r + 8, st.next[a], st.next[a] + 8})
    requires st.next[a] in Cut(st, a, r).next
    requires TagFits(Cut(st, a, r), m', a) && TagFits(Cut(st, a, r), m', r) && TagFits(Cut(st, a, r), m', st.next[a])
    requires st.next[a] in m' && m'[st.next[a]] == r
    requires a in st.free ==> r in m' && m'[r] == a
    ensures Holds(g, Cut(st, a, r), m') && Kept(st, m, m', a)
  {
    hide Shaped, Chained, Separate, Aligned, Typed, Distinct, Complete, Tagged, TaggedAt;
    hide AllLinked, PayloadsKept, Footed, HeaderWords;
    NextOf(g, st, a);
    var w := {a + 8, r, r + 8, st.next[a], st.next[a] + 8};
    CutWords(st.next, a, r);
    HeaderWritesKeepLinks(g.first, g.last, st.next, st.prev, st.free, st.lists, hand, m, m', g.nul, a, w);
    HeaderWritesKeepPayloads(st.next, st.free, m, m', a, w);
    FootersKept(g.first, g.last, st.next, st.prev, st.free, m, m', a, w);
    NotABlock(g, st, a, r);
    CutFooted(m', st.next, st.free, a, r);
    forall b | b in st.next && b != a && b != st.next[a]
      ensures b + 8 in m' && m'[b + 8] == m[b + 8]
    {
      OtherHeader(g, st, m, a, b);
      InteriorApart(g, st, a, r, b);
    }
    CutTagged(g.last, st.next, st.prev, st.free, m, m', a, r);
  }

  lemma NotABlock(g: Geometry, st: State, a: int, r: int)
    requires Physical(g, st) && CanCut(g.last, st.next, a, r)
    ensures r !in st.next && r !in st.free && r !in st.prev
  {
  }

  lemma InteriorApart(g: Geometry, st: State, a: int, r: int, b: int)
    requires Physical(g, st) && CanCut(g.last, st.next, a, r) && b in st.next
    ensures b + 8 != r && b + 8 != r + 8
  {
  }

  lemma CutFooted(m: Mem, next: Links, free: set<int>, a: int, r: int)
    requires Footed(m, next, free - {a}) && a in next && r !in next
    requires next[a] in m && m[next[a]] == r
    requires a in free ==> r in m && m[r] == a
    ensures Footed(m, SplitNext(next, a, r), free + {r})
  {
  }

  // ---- Joining ----

  lemma JoinWords(next: Links, p: int)
    requires p in next && next[p] in next && next[next[p]] in next && next[p] + 32 <= next[next[p]]
    ensures HeaderWords(next, next[p], {p + 8, next[next[p]], next[next[p]] + 8})
  {
  }

  lemma JoinCommit(g: Geometry, st: State, m: Mem, m': Mem, hand: set<int>, p: int)
    requires Physical(g, st) && Filed(st.next, st.free, st.lists, hand)
    requires p in st.next && p != g.last && st.next[p] in st.free && st.next[p] in hand
    requires st.next[p] in st.next && st.next[st.next[p]] in st.next && Holds(g, st, m)
    requires WritesOnly(m, m', {p + 8, st.next[st.next[p]], st.next[st.next[p]] + 8})
    requires p in Join(st, p).next && st.next[st.next[p]] in Join(st, p).next
    requires TagFits(Join(st, p), m', p) && TagFits(Join(st, p), m', st.next[st.next[p]])
    requires p in st.free ==> st.next[st.next[p]] in m' && m'[st.next[st.next[p]]] == p
    ensures Holds(g, Join(st, p), m') && Kept(st, m, m', -1)
  {
    hide Shaped, Chained, Separate, Aligned, Typed, Distinct, Complete, Tagged, TaggedAt;
    hide AllLinked, PayloadsKept, Footed, HeaderWords;
    var n := st.next[p];
    NextOf(g, st, p);
    NextOf(g, st, n);
    var w := {p + 8, st.next[n], st.next[n] + 8};
    JoinWords(st.next, p);
    HeaderWritesKeepLinks(g.first, g.last, st.next, st.prev, st.free, st.lists, hand, m, m', g.nul, n, w);
    HeaderWritesKeepPayloads(st.next, st.free, m, m', n, w);
    AllPayloadsKept(st, m, m', n);
    FootersKept(g.first, g.last, st.next, st.prev, st.free, m, m', n, w);
    JoinFooted(m', st.next, st.free, p);
    forall b | b in st.next && b != p && b != n && b != st.next[n]
      ensures b + 8 in m' && m'[b + 8] == m[b + 8]
    {
      OtherHeader(g, st, m, p, b);
      OtherHeader(g, st, m, n, b);
    }
    JoinTagged(g.last, st.next, st.prev, st.free, m, m', p);
  }

  lemma AllPayloadsKept(st: State, m: Mem, m': Mem, n: int)
    requires Kept(st, m, m', n) && n in st.free
    ensures Kept(st, m, m', -1)
  {
  }

  lemma JoinFooted(m: Mem, next: Links, free: set<int>, p: int)
    requires p in next && next[p] in next && Footed(m, next, free - {next[p]}) && p != next[p]
    requires p in free ==> next[next[p]] in m && m[next[next[p]]] == p
    ensures Footed(m, AbsorbNext(next, p), free - {next[p]})
  {
  }

  // ---- From words to tags ----

  // The three words written by a cut, read against the state after it.
  lemma CutTagsFit(g: Geometry, st: State, m: Mem, a: int, r: int)
    requires Physical(g, st) && CanCut(g.last, st.next, a, r) && st.next[a] in st.next
    requires a + 8 in m && Says(m[a + 8], r - a - 8, a in st.free, PrevFree(st.prev, st.free, a))
    requires r + 8 in m && Says(m[r + 8], st.next[a] - r - 8, true, a in st.free)
    requires st.next[a] + 8 in m
    requires Says(m[st.next[a] + 8], Size(st.next, st.next[a]), st.next[a] in st.free, true)
    ensures st.next[a] in Cut(st, a, r).next
    ensures TagFits(Cut(st, a, r), m, a) && TagFits(Cut(st, a, r), m, r) && TagFits(Cut(st, a, r), m, st.next[a])
  {
    hide Tiled, Says;
    NextOf(g, st, a);
    NotABlock(g, st, a, r);
    if a in st.prev { PrevOf(g, st, a); }
  }

  // The two words written by a join.
  lemma JoinTagsFit(g: Geometry, st: State, m: Mem, p: int)
    requires Physical(g, st) && p in st.next && p != g.last && st.next[p] in st.free
    requires st.next[p] in st.next && st.next[st.next[p]] in st.next
    requires p + 8 in m && st.next[st.next[p]] + 8 in m
    requires Says(m[p + 8], st.next[st.next[p]] - p - 8, p in st.free, PrevFree(st.prev, st.free, p))
    requires Says(m[st.next[st.next[p]] + 8], Size(st.next, st.next[st.next[p]]),
                  st.next[st.next[p]] in st.free, p in st.free)
    ensures p in Join(st, p).next && st.next[st.next[p]] in Join(st, p).next
    ensures TagFits(Join(st, p), m, p) && TagFits(Join(st, p), m, st.next[st.next[p]])
  {
    hide Tiled, Says;
    NextOf(g, st, p);
    NextOf(g, st, st.next[p]);
    if p in st.prev { PrevOf(g, st, p); NextOf(g, st, st.prev[p]); }
  }

  lemma MarkTagsFit(g: Geometry, st: State, m: Mem, a: int, free': set<int>)
    requires Physical(g, st) && a in st.next && a != g.last && st.next[a] in st.next
    requires free' == st.free + {a} || free' == st.free - {a}
    requires a + 8 in m && st.next[a] + 8 in m
    requires Says(m[a + 8], Size(st.next, a), a in free', PrevFree(st.prev, st.free, a))
    requires Says(m[st.next[a] + 8], Size(st.next, st.next[a]), st.next[a] in st.free, a in free')
    ensures TaggedAt(m, st.next, st.prev, free', a) && TaggedAt(m, st.next, st.prev, free', st.next[a])
  {
    hide Tiled, Says;
    NextOf(g, st, a);
    if a in st.prev { PrevOf(g, st, a); }
  }

  // ---- Lists ----

  lemma InList(g: Geometry, st: State, hand: set<int>, c: int, i: int)
    requires Physical(g, st) && Filed(st.next, st.free, st.lists, hand)
    requires 0 <= c < CLASS_COUNT && 0 <= i < |st.lists[c]|
    ensures st.lists[c][i] in st.free && st.lists[c][i] in st.next && st.lists[c][i] !in hand
    ensures st.lists[c][i] != g.last && g.nul + 32 <= st.lists[c][i] && InClass(st.next, st.lists[c][i], c)
  {
    assert InClass(st.next, st.lists[c][i], c);
  }

  // The three words that an insertion writes.
  lemma InsertStores(g: Geometry, st: State, m: Mem, a: int, l: seq<int>)
    requires a in st.free && a in st.next && (l != [] ==> l[0] in st.free && l[0] in st.next)
    requires a + 16 in m && a + 24 in m && HeadOf(g.nul, l) + 24 in m
    ensures var w := {a + 16, a + 24, HeadOf(g.nul, l) + 24};
      && WritesOnly(m, Inserted(m, g.nul, a, HeadOf(g.nul, l)), w)
      && LinkWords(g.nul, st.next, st.free, w) && StoresTo(g.nul, l, a, w)
  {
  }

  lemma InsertCommit(g: Geometry, st: State, m: Mem, hand: set<int>, a: int, c: int)
    requires Physical(g, st) && Filed(st.next, st.free, st.lists, hand) && Mapped(g, m)
    requires a in st.free && a in hand && 0 <= c < CLASS_COUNT && Holds(g, st, m)
    ensures var m' := Inserted(m, g.nul, a, HeadOf(g.nul, st.lists[c]));
      && m'.Keys == m.Keys && Kept(st, m, m', -1)
      && Holds(g, st.(lists := Push(st.lists, c, a)), m')
  {
    hide Shaped, Chained, Separate, Aligned, Complete, Tagged, TaggedAt, Mapped, InClass, Owns;
    hide PayloadsKept, Footed, Linked, AllLinked, Push, Inserted;
    var l := st.lists[c];
    var head := HeadOf(g.nul, l);
    var m' := Inserted(m, g.nul, a, head);
    BlockMapped(g, st, m, a);
    NulMapped(g, m);
    if l != [] {
      InList(g, st, hand, c, 0);
      BlockMapped(g, st, m, l[0]);
    }
    var w := {a + 16, a + 24, head + 24};
    hide LinkWords, StoresTo, WritesOnly;
    InsertStores(g, st, m, a, l);
    LinkStores(g, st, hand, m, m', w);
    ListSpread(g.first, g.last, st.next, st.prev, st.free, st.lists, hand, g.nul, c);
    LinkedIn(m, g.nul, st.lists, c);
    InsertLinked(m, g.nul, l, a);
    forall k | 0 <= k < CLASS_COUNT && k != c
      ensures Linked(m', g.nul, st.lists[k])
    {
      OtherListMissed(g, st, hand, c, k, w, a);
      LinkedIn(m, g.nul, st.lists, k);
      OtherListKept(m, m', g.nul, st.lists[k], w);
    }
    PushLinked(m', g.nul, st.lists, c, a);
  }

  lemma LinkedIn(m: Mem, nul: int, lists: Lists, k: int)
    requires AllLinked(m, nul, lists) && 0 <= k < |lists|
    ensures Linked(m, nul, lists[k])
  {
  }

  lemma PushLinked(m: Mem, nul: int, lists: Lists, c: int, a: int)
    requires 0 <= c < |lists| && Linked(m, nul, [a] + lists[c])
    requires forall k :: 0 <= k < |lists| && k != c ==> Linked(m, nul, lists[k])
    ensures AllLinked(m, nul, Push(lists, c, a))
  {
    hide Linked;
  }

  lemma NulMapped(g: Geometry, m: Mem)
    requires Mapped(g, m)
    ensures g.nul + 16 in m && g.nul + 24 in m
  {
  }

  lemma LinkStores(g: Geometry, st: State, hand: set<int>, m: Mem, m': Mem, w: set<int>)
    requires Physical(g, st) && Holds(g, st, m)
    requires LinkWords(g.nul, st.next, st.free, w) && WritesOnly(m, m', w)
    ensures Tagged(m', st.next, st.prev, st.free) && Footed(m', st.next, st.free)
    ensures Kept(st, m, m', -1)
  {
    hide Shaped, Chained, Separate, Aligned, Tagged, TaggedAt, AllLinked, PayloadsKept, Footed, LinkWords;
    LinkWritesKeepHeaders(g.first, g.last, st.next, st.prev, g.nul, st.free, m, m', w);
    LinkWritesKeepPayloads(g.first, g.last, st.next, st.prev, g.nul, st.free, m, m', w, -1);
  }

  // Stores to a, to the elements of list c and to block_null miss list k.
  ghost predicate StoresTo(nul: int, l: seq<int>, a: int, w: set<int>) {
    forall x :: x in w ==>
      (x == a + 16 || x == a + 24 || x == nul + 16 || x == nul + 24 || x - 16 in l || x - 24 in l)
  }

  lemma OtherListMissed(g: Geometry, st: State, hand: set<int>, c: int, k: int, w: set<int>, a: int)
    requires Physical(g, st) && Filed(st.next, st.free, st.lists, hand)
    requires 0 <= c < CLASS_COUNT && 0 <= k < CLASS_COUNT && k != c
    requires a in st.next && (a in hand || a in st.lists[c]) && StoresTo(g.nul, st.lists[c], a, w)
    ensures forall i :: 0 <= i < |st.lists[k]| ==> st.lists[k][i] + 16 !in w && st.lists[k][i] + 24 !in w
  {
    hide Tiled, Typed, Distinct, Complete, InClass;
    forall i | 0 <= i < |st.lists[k]|
      ensures st.lists[k][i] + 16 !in w && st.lists[k][i] + 24 !in w
    {
      var e := st.lists[k][i];
      InList(g, st, hand, k, i);
      forall x | x in w
        ensures x != e + 16 && x != e + 24
      {
        var y := if x == a + 16 || x == a + 24 then a else if x - 16 in st.lists[c] then x - 16 else x - 24;
        if x != g.nul + 16 && x != g.nul + 24 { DifferentLists(g, st, hand, c, k, i, y); }
      }
    }
  }

  lemma DifferentLists(g: Geometry, st: State, hand: set<int>, c: int, k: int, i: int, x: int)
    requires Physical(g, st) && Filed(st.next, st.free, st.lists, hand)
    requires 0 <= c < CLASS_COUNT && 0 <= k < CLASS_COUNT && k != c && 0 <= i < |st.lists[k]|
    requires (x in st.next && x in hand) || x in st.lists[c]
    ensures var e := st.lists[k][i]; x != e && e + 16 != x + 24 && e + 24 != x + 16
  {
    hide Class;
    InList(g, st, hand, k, i);
    if x in st.lists[c] {
      var j :| 0 <= j < |st.lists[c]| && st.lists[c][j] == x;
      InList(g, st, hand, c, j);
    }
    Apart(g.first, g.last, st.next, st.prev, x, st.lists[k][i]);
  }

  lemma RemoveCommit(g: Geometry, st: State, m: Mem, hand: set<int>, c: int, i: int)
    requires Physical(g, st) && Filed(st.next, st.free, st.lists, hand) && Mapped(g, m)
    requires 0 <= c < CLASS_COUNT && 0 <= i < |st.lists[c]| && Holds(g, st, m)
    ensures var l := st.lists[c];
      var m' := Removed(m, PrevLink(g.nul, l, i), NextLink(g.nul, l, i));
      && m'.Keys == m.Keys && Kept(st, m, m', -1)
      && Holds(g, st.(lists := Drop(st.lists, c, l[i])), m')
  {
    hide Shaped, Chained, Separate, Aligned, Complete, Tagged, TaggedAt, Mapped, InClass;
    hide PayloadsKept, Footed;
    var l := st.lists[c];
    var p, n := PrevLink(g.nul, l, i), NextLink(g.nul, l, i);
    var m' := Removed(m, p, n);
    InList(g, st, hand, c, i);
    NulMapped(g, m);
    if i > 0 {
      InList(g, st, hand, c, i - 1);
      BlockMapped(g, st, m, l[i - 1]);
    }
    if i + 1 < |l| {
      InList(g, st, hand, c, i + 1);
      BlockMapped(g, st, m, l[i + 1]);
    }
    var w := {n + 24, p + 16};
    assert WritesOnly(m, m', w);
    assert LinkWords(g.nul, st.next, st.free, w);
    assert StoresTo(g.nul, l, l[i], w);
    LinkStores(g, st, hand, m, m', w);
    hide LinkWords, StoresTo, PrevLink, NextLink, WritesOnly;
    RemoveLinks(g, st, m, m', hand, c, i, w);
  }

  lemma RemoveLinks(g: Geometry, st: State, m: Mem, m': Mem, hand: set<int>, c: int, i: int, w: set<int>)
    requires Physical(g, st) && Filed(st.next, st.free, st.lists, hand)
    requires 0 <= c < CLASS_COUNT && 0 <= i < |st.lists[c]| && AllLinked(m, g.nul, st.lists)
    requires m' == Removed(m, PrevLink(g.nul, st.lists[c], i), NextLink(g.nul, st.lists[c], i))
    requires WritesOnly(m, m', w) && StoresTo(g.nul, st.lists[c], st.lists[c][i], w)
    ensures AllLinked(m', g.nul, Drop(st.lists, c, st.lists[c][i]))
  {
    hide Shaped, Chained, Separate, Aligned, Complete, InClass, StoresTo, WritesOnly, Removed, PrevLink, NextLink;
    hide Linked, Typed;
    var l := st.lists[c];
    InList(g, st, hand, c, i);
    ListSpread(g.first, g.last, st.next, st.prev, st.free, st.lists, hand, g.nul, c);
    WithoutAt(l, i);
    RemoveLinked(m, g.nul, l, i);
    forall k | 0 <= k < CLASS_COUNT && k != c
      ensures Linked(m', g.nul, st.lists[k])
    {
      OtherListMissed(g, st, hand, c, k, w, l[i]);
      OtherListKept(m, m', g.nul, st.lists[k], w);
    }
  }

  // ---- The groups of stores as the allocator makes them ----

  // What block_split leaves behind: both parts sized, the remainder r marked free
  // and linked to the block n after it; its previous-free bit is still whatever
  // the payload word there held.
  ghost predicate SplitStores(m: Mem, m': Mem, a: int, r: int, n: int) {
    && a + 8 in m && n + 8 in m && a + 8 in m' && r + 8 in m' && n in m' && n + 8 in m'
    && m'.Keys == m.Keys
    && (forall x :: x in m && x != n && x != a + 8 && x != r + 8 && x != n + 8 ==> x in m' && m'[x] == m[x])
    && Says(m'[a + 8], r - a - 8, FreeBit(m[a + 8]), PrevFreeBit(m[a + 8]))
    && BlockSize(m'[r + 8]) == n - r - 8 && FreeBit(m'[r + 8])
    && Says(m'[n + 8], BlockSize(m[n + 8]), FreeBit(m[n + 8]), true)
    && m'[n] == r
  }

  // The caller's stores complete the cut of a free block: back pointer and bit.
  lemma CutOfFree(st: State, m: Mem, m': Mem, a: int, r: int)
    requires a in st.next && SplitStores(m, m', a, r, st.next[a])
    requires a + 32 <= r && r + 32 <= st.next[a] && r in m
    ensures CutStores(st, m, m'[r := a][r + 8 := SetPrevFree(m'[r + 8])], a, r, true)
  {
    hide BlockSize, FreeBit, PrevFreeBit, SetPrevFree;
    StatusUpdates(m'[r + 8]);
  }

  // The cut of a used block: the bit is cleared.
  lemma CutOfUsed(st: State, m: Mem, m': Mem, a: int, r: int)
    requires a in st.next && SplitStores(m, m', a, r, st.next[a])
    requires a + 32 <= r && r + 32 <= st.next[a]
    ensures CutStores(st, m, m'[r + 8 := SetPrevUsed(m'[r + 8])], a, r, false)
  {
    hide BlockSize, FreeBit, PrevFreeBit, SetPrevUsed;
    StatusUpdates(m'[r + 8]);
  }

  // block_split's stores with those its callers add.
  ghost predicate CutStores(st: State, m: Mem, m': Mem, a: int, r: int, prevFree: bool)
    requires a in st.next
  {
    var n := st.next[a];
    && a + 8 in m && n + 8 in m && a + 8 in m' && r + 8 in m' && n in m' && n + 8 in m'
    && WritesOnly(m, m', if prevFree then {a + 8, r, r + 8, n, n + 8} else {a + 8, r + 8, n, n + 8})
    && Says(m'[a + 8], r - a - 8, FreeBit(m[a + 8]), PrevFreeBit(m[a + 8]))
    && Says(m'[r + 8], n - r - 8, true, prevFree)
    && Says(m'[n + 8], BlockSize(m[n + 8]), FreeBit(m[n + 8]), true)
    && m'[n] == r
    && (prevFree ==> r in m' && m'[r] == a)
  }

  lemma CutStored(g: Geometry, st: State, m: Mem, m': Mem, hand: set<int>, a: int, r: int)
    requires Physical(g, st) && Filed(st.next, st.free, st.lists, hand) && (a in hand || a !in st.free)
    requires CanCut(g.last, st.next, a, r) && Holds(g, st, m)
    requires CutStores(st, m, m', a, r, a in st.free)
    ensures Holds(g, Cut(st, a, r), m') && Kept(st, m, m', a)
  {
    hide Tiled, Filed, Holds, Kept, WritesOnly, BlockSize, FreeBit, PrevFreeBit;
    NextOf(g, st, a);
    ReadTag(g, st, m, a);
    ReadTag(g, st, m, st.next[a]);
    CutTagsFit(g, st, m', a, r);
    hide TagFits;
    CutWrites(st, m, m', a, r);
    CutCommit(g, st, m, m', hand, a, r);
  }

  lemma CutWrites(st: State, m: Mem, m': Mem, a: int, r: int)
    requires a in st.next && CutStores(st, m, m', a, r, a in st.free)
    ensures WritesOnly(m, m', {a + 8, r, r + 8, st.next[a], st.next[a] + 8})
  {
    hide Says;
  }

  // Cutting a used block leaves the payload before the cut alone.
  lemma CutKeepsPayload(st: State, m: Mem, m': Mem, a: int, r: int)
    requires a in st.next && CutStores(st, m, m', a, r, false) && a + 32 <= r && r + 32 <= st.next[a]
    ensures PayloadKept(m, m', a, r)
  {
    hide Says;
  }

  // ---- Stores by the owner of a block ----

  // Storing inside the payload of a used block disturbs nothing else.
  lemma OwnerStores(g: Geometry, st: State, m: Mem, m': Mem, a: int, w: set<int>)
    requires Physical(g, st) && Filed(st.next, st.free, st.lists, {}) && Holds(g, st, m)
    requires Used(st, a) && a != g.last && WritesOnly(m, m', w)
    requires forall x :: x in w ==> a + 16 <= x < st.next[a] + 8
    ensures Holds(g, st, m') && Kept(st, m, m', a)
  {
    hide Shaped, Chained, Separate, Aligned, Typed, Distinct, Complete, TaggedAt;
    hide AllLinked, PayloadsKept, Footed;
    NextOf(g, st, a);
    assert HeaderWords(st.next, a, w);
    HeaderWritesKeepLinks(g.first, g.last, st.next, st.prev, st.free, st.lists, {}, m, m', g.nul, a, w);
    HeaderWritesKeepPayloads(st.next, st.free, m, m', a, w);
    FootersKept(g.first, g.last, st.next, st.prev, st.free, m, m', a, w);
    assert st.free - {a} == st.free;
    forall b | b in st.next ensures TaggedAt(m', st.next, st.prev, st.free, b) {
      assert TaggedAt(m, st.next, st.prev, st.free, b);
      HeaderNotInPayload(g, st, m, a, b);
      TagKept(m, m', st.next, st.next, st.prev, st.prev, st.free, st.free, b);
    }
  }

  lemma HeaderNotInPayload(g: Geometry, st: State, m: Mem, a: int, b: int)
    requires Physical(g, st) && a in st.next && b in st.next && a != g.last
    requires TaggedAt(m, st.next, st.prev, st.free, b)
    ensures b + 8 in m && !(a + 16 <= b + 8 < st.next[a] + 8)
  {
  }

  // What block_absorb leaves behind.
  ghost predicate JoinStores(st: State, m: Mem, m': Mem, p: int)
    requires p in st.next && st.next[p] in st.next
  {
    var nn := st.next[st.next[p]];
    && p + 8 in m && nn + 8 in m && p + 8 in m' && nn in m' && nn + 8 in m'
    && WritesOnly(m, m', {p + 8, nn, nn + 8})
    && Says(m'[p + 8], nn - p - 8, FreeBit(m[p + 8]), PrevFreeBit(m[p + 8]))
    && Says(m'[nn + 8], BlockSize(m[nn + 8]), FreeBit(m[nn + 8]), FreeBit(m[p + 8]))
    && m'[nn] == p
  }

  lemma JoinStored(g: Geometry, st: State, m: Mem, m': Mem, hand: set<int>, p: int)
    requires Physical(g, st) && Filed(st.next, st.free, st.lists, hand)
    requires p in st.next && p != g.last && st.next[p] in st.free && st.next[p] in hand
    requires st.next[p] in st.next && Holds(g, st, m) && JoinStores(st, m, m', p)
    ensures Holds(g, Join(st, p), m') && Kept(st, m, m', -1)
  {
    hide Tiled, Filed, Holds, Kept, WritesOnly, BlockSize, FreeBit, PrevFreeBit;
    NextOf(g, st, p);
    NextOf(g, st, st.next[p]);
    ReadTag(g, st, m, p);
    ReadTag(g, st, m, st.next[st.next[p]]);
    JoinTagsFit(g, st, m', p);
    hide TagFits;
    JoinCommit(g, st, m, m', hand, p);
  }

  // What block_mark_as_free and block_mark_as_used leave behind.
  ghost predicate MarkStores(st: State, m: Mem, m': Mem, a: int, free: bool)
    requires a in st.next
  {
    var n := st.next[a];
    && a + 8 in m && n + 8 in m && a + 8 in m' && n + 8 in m'
    && WritesOnly(m, m', if free then {a + 8, n, n + 8} else {a + 8, n + 8})
    && Says(m'[a + 8], BlockSize(m[a + 8]), free, PrevFreeBit(m[a + 8]))
    && Says(m'[n + 8], BlockSize(m[n + 8]), FreeBit(m[n + 8]), free)
    && (free ==> n in m' && m'[n] == a)
  }

  lemma FreeStored(g: Geometry, st: State, m: Mem, m': Mem, a: int)
    requires Physical(g, st) && Used(st, a) && a != g.last && Holds(g, st, m)
    requires Filed(st.next, st.free, st.lists, {}) && MarkStores(st, m, m', a, true)
    ensures Holds(g, st.(free := st.free + {a}), m') && Kept(st, m, m', a)
  {
    hide Tiled, Filed, Holds, Kept, WritesOnly, BlockSize, FreeBit, PrevFreeBit;
    NextOf(g, st, a);
    ReadTag(g, st, m, a);
    ReadTag(g, st, m, st.next[a]);
    MarkTagsFit(g, st, m', a, st.free + {a});
    hide TaggedAt;
    MarkFreeCommit(g, st, m, m', a);
  }

  lemma UseStored(g: Geometry, st: State, m: Mem, m': Mem, a: int)
    requires Physical(g, st) && a in st.free && Holds(g, st, m)
    requires Filed(st.next, st.free, st.lists, {a}) && a in st.next && MarkStores(st, m, m', a, false)
    ensures Holds(g, st.(free := st.free - {a}), m') && Kept(st, m, m', a)
  {
    hide Tiled, Filed, Holds, Kept, WritesOnly, BlockSize, FreeBit, PrevFreeBit;
    NextOf(g, st, a);
    ReadTag(g, st, m, a);
    ReadTag(g, st, m, st.next[a]);
    MarkTagsFit(g, st, m', a, st.free - {a});
    hide TaggedAt;
    MarkUsedCommit(g, st, m, m', a);
  }
}
