// The allocator's state seen from above: which blocks tile the pool, and which
// free list holds which block. The class Tlsf keeps this view as ghost state
// beside the words and bitmaps that represent it.
//
// Blocks are named by the address of their header. next and prev are the
// physical neighbours, recorded whether or not the allocator stores them.
module Heap {
  import opened SizeClass

  type Links = map<int, int>
  type Lists = seq<seq<int>>

  // ---- Physical order ----

  ghost predicate Shaped(first: int, last: int, next: Links, prev: Links) {
    && first in next && last in next && next[last] == last + BLOCK_HEADER_OVERHEAD
    && (forall a :: a in prev <==> a in next && a != first)
    && (forall a :: a in next ==> first <= a <= last)
    && (forall a {:trigger next[a]} :: a in next && a != last ==> next[a] >= a + BLOCK_HEADER_SIZE)
  }

  ghost predicate Chained(last: int, next: Links, prev: Links) {
    && (forall a {:trigger next[a]} :: a in next && a != last ==>
          next[a] in next && next[a] in prev && prev[next[a]] == a)
    && (forall a {:trigger prev[a]} :: a in prev ==> prev[a] in next && next[prev[a]] == a)
  }

  ghost predicate Separate(next: Links) {
    forall a, b {:trigger next[a], b in next} :: a in next && b in next && a < b ==> next[a] <= b
  }

  ghost predicate Aligned(next: Links) {
    forall a :: a in next ==> Multiple8(a)
  }

  // Blocks follow one another without gap or overlap from first to last.
  ghost predicate Tiled(first: int, last: int, next: Links, prev: Links) {
    && Shaped(first, last, next, prev) && Chained(last, next, prev)
    && Separate(next) && Aligned(next)
  }

  // Payload bytes of a block: what lies between its header and the next one.
  function Size(next: Links, a: int): int
    requires a in next
  {
    next[a] - a - BLOCK_HEADER_OVERHEAD
  }

  // Cut block a at header r; give block p the storage of its successor.
  function SplitNext(next: Links, a: int, r: int): Links
    requires a in next
  {
    next[a := r][r := next[a]]
  }

  function SplitPrev(next: Links, prev: Links, a: int, r: int): Links
    requires a in next
  {
    prev[next[a] := r][r := a]
  }

  function AbsorbNext(next: Links, p: int): Links
    requires p in next && next[p] in next
  {
    (next - {next[p]})[p := next[next[p]]]
  }

  function AbsorbPrev(next: Links, prev: Links, p: int): Links
    requires p in next && next[p] in next
  {
    (prev - {next[p]})[next[next[p]] := p]
  }

  // Where block a may be cut: both parts stay legal blocks.
  ghost predicate CanCut(last: int, next: Links, a: int, r: int) {
    a in next && a != last && a + BLOCK_HEADER_SIZE <= r && r + BLOCK_HEADER_SIZE <= next[a]
  }

  lemma SplitTiled(first: int, last: int, next: Links, prev: Links, a: int, r: int)
    requires Tiled(first, last, next, prev) && CanCut(last, next, a, r) && Multiple8(r)
    ensures Tiled(first, last, SplitNext(next, a, r), SplitPrev(next, prev, a, r))
    ensures r !in next
  {
    SplitSeparate(next, a, r);
    SplitShaped(first, last, next, prev, a, r);
    SplitChained(last, next, prev, a, r);
    SplitAligned(next, a, r);
  }

  lemma SplitAligned(next: Links, a: int, r: int)
    requires Aligned(next) && a in next && Multiple8(r)
    ensures Aligned(SplitNext(next, a, r))
  {
  }

  lemma SplitShaped(first: int, last: int, next: Links, prev: Links, a: int, r: int)
    requires Shaped(first, last, next, prev) && CanCut(last, next, a, r)
    requires next[a] in prev && r !in next
    ensures Shaped(first, last, SplitNext(next, a, r), SplitPrev(next, prev, a, r))
  {
  }

  lemma SplitSeparate(next: Links, a: int, r: int)
    requires Separate(next) && a in next && a < r < next[a]
    ensures Separate(SplitNext(next, a, r))
    ensures r !in next
  {
  }

  lemma SplitChained(last: int, next: Links, prev: Links, a: int, r: int)
    requires Chained(last, next, prev) && CanCut(last, next, a, r) && r !in next
    ensures Chained(last, SplitNext(next, a, r), SplitPrev(next, prev, a, r))
  {
    var next', prev' := SplitNext(next, a, r), SplitPrev(next, prev, a, r);
    forall b | b in next' && b != last
      ensures next'[b] in next' && next'[b] in prev' && prev'[next'[b]] == b
    {
      if b != a && b != r { assert prev[next[b]] == b && prev[next[a]] == a; }
    }
    forall b | b in prev'
      ensures prev'[b] in next' && next'[prev'[b]] == b
    {
      if b != r && b != next[a] { assert next[prev[b]] == b; }
    }
  }

  lemma AbsorbTiled(first: int, last: int, next: Links, prev: Links, p: int)
    requires Tiled(first, last, next, prev) && p in next && p != last && next[p] != last
    ensures Tiled(first, last, AbsorbNext(next, p), AbsorbPrev(next, prev, p))
  {
    AbsorbSeparate(next, p);
    AbsorbShaped(first, last, next, prev, p);
    AbsorbChained(last, next, prev, p);
    AbsorbAligned(next, p);
  }

  lemma AbsorbAligned(next: Links, p: int)
    requires Aligned(next) && p in next && next[p] in next
    ensures Aligned(AbsorbNext(next, p))
  {
  }

  lemma AbsorbShaped(first: int, last: int, next: Links, prev: Links, p: int)
    requires Shaped(first, last, next, prev)
    requires p in next && p != last && next[p] in prev && next[p] != last && next[next[p]] in prev
    ensures Shaped(first, last, AbsorbNext(next, p), AbsorbPrev(next, prev, p))
  {
  }

  lemma AbsorbSeparate(next: Links, p: int)
    requires Separate(next) && p in next && next[p] in next && p < next[p]
    ensures Separate(AbsorbNext(next, p))
  {
  }

  lemma AbsorbChained(last: int, next: Links, prev: Links, p: int)
    requires Chained(last, next, prev)
    requires p in next && p != last && next[p] in next && next[p] != last && p < next[p] < next[next[p]]
    ensures Chained(last, AbsorbNext(next, p), AbsorbPrev(next, prev, p))
  {
    var n := next[p];
    var next', prev' := AbsorbNext(next, p), AbsorbPrev(next, prev, p);
    assert prev[next[n]] == n && prev[n] == p;
    forall b | b in next' && b != last
      ensures next'[b] in next' && next'[b] in prev' && prev'[next'[b]] == b
    {
      if b != p { assert prev[next[b]] == b; }
    }
    forall b | b in prev'
      ensures prev'[b] in next' && next'[prev'[b]] == b
    {
      if b != next[n] { assert next[prev[b]] == b; }
    }
  }

  // ---- Coalescing ----

  // No two neighbours are both free, pairs involving x aside.
  ghost predicate CoalescedBut(next: Links, free: set<int>, x: int) {
    forall a {:trigger next[a]} :: a in free && a != x && a in next && next[a] != x ==> next[a] !in free
  }

  ghost predicate Coalesced(next: Links, free: set<int>) {
    forall a {:trigger next[a]} :: a in free && a in next ==> next[a] !in free
  }

  // ---- Free lists ----

  // Every list holds distinct free blocks of its own size class, and every
  // free block except those in hand is in its list.
  ghost predicate Filed(next: Links, free: set<int>, lists: Lists, hand: set<int>) {
    Typed(next, free, lists, hand) && Distinct(lists) && Complete(next, free, lists, hand)
  }

  ghost predicate InClass(next: Links, a: int, c: int) {
    a in next && Size(next, a) >= 0 && Class(Size(next, a)) == c
  }

  ghost predicate Typed(next: Links, free: set<int>, lists: Lists, hand: set<int>) {
    && |lists| == CLASS_COUNT
    && forall c, i :: 0 <= c < |lists| && 0 <= i < |lists[c]| ==>
         lists[c][i] in free && lists[c][i] !in hand && InClass(next, lists[c][i], c)
  }

  ghost predicate Distinct(lists: Lists) {
    forall c, i, j :: 0 <= c < |lists| && 0 <= i < j < |lists[c]| ==> lists[c][i] != lists[c][j]
  }

  ghost predicate Complete(next: Links, free: set<int>, lists: Lists, hand: set<int>) {
    forall a :: a in free && a !in hand ==>
      exists c :: 0 <= c < |lists| && InClass(next, a, c) && a in lists[c]
  }

  function Push(lists: Lists, c: int, a: int): Lists
    requires 0 <= c < |lists|
  {
    lists[c := [a] + lists[c]]
  }

  function Without(l: seq<int>, a: int): seq<int>
  {
    if l == [] then [] else if l[0] == a then l[1..] else [l[0]] + Without(l[1..], a)
  }

  function Drop(lists: Lists, c: int, a: int): Lists
    requires 0 <= c < |lists|
  {
    lists[c := Without(lists[c], a)]
  }

  lemma {:induction false} WithoutAt(l: seq<int>, i: int)
    requires 0 <= i < |l|
    requires forall j, k :: 0 <= j < k < |l| ==> l[j] != l[k]
    ensures Without(l, l[i]) == l[..i] + l[i + 1..]
  {
    if i > 0 {
      hide Without;
      var t := l[1..];
      WithoutAt(t, i - 1);
      assert Without(l, l[i]) == [l[0]] + Without(t, t[i - 1]) by { WithoutLater(l, i); }
      assert [l[0]] + (t[..i - 1] + t[i..]) == l[..i] + l[i + 1..];
    }
  }

  lemma WithoutLater(l: seq<int>, i: int)
    requires 0 < i < |l| && l[0] != l[i]
    ensures Without(l, l[i]) == [l[0]] + Without(l[1..], l[1..][i - 1])
  {
  }

  // Changing the set of free blocks by one block in hand.
  lemma MarkFiled(next: Links, free: set<int>, lists: Lists, hand: set<int>, a: int)
    requires Filed(next, free, lists, hand) && (a in hand || a !in free)
    ensures Filed(next, free + {a}, lists, hand + {a})
    ensures Filed(next, free - {a}, lists, hand - {a})
  {
  }

  // Blocks outside the lists may change size or come and go.
  lemma ResizeFiled(next: Links, next': Links, free: set<int>, free': set<int>, lists: Lists,
                    hand: set<int>, hand': set<int>)
    requires Filed(next, free, lists, hand)
    requires forall a :: a in free && a !in hand ==> a in next && a in next' && next'[a] == next[a]
    requires forall a :: a in free && a !in hand <==> a in free' && a !in hand'
    ensures Filed(next', free', lists, hand')
  {
    forall a, c | a in free && a !in hand && InClass(next, a, c)
      ensures InClass(next', a, c)
    {
    }
  }

  lemma PushFiled(next: Links, free: set<int>, lists: Lists, hand: set<int>, a: int, c: int)
    requires Filed(next, free, lists, hand)
    requires a in hand && a in free && 0 <= c < CLASS_COUNT && InClass(next, a, c)
    ensures Filed(next, free, Push(lists, c, a), hand - {a})
  {
    var l' := Push(lists, c, a);
    assert l'[c] == [a] + lists[c];
    assert l'[c][0] == a;
    forall b | b in free && b !in hand - {a}
      ensures exists k :: 0 <= k < |l'| && InClass(next, b, k) && b in l'[k]
    {
      if b != a {
        var k :| 0 <= k < |lists| && InClass(next, b, k) && b in lists[k];
        assert b in l'[k];
      }
    }
  }

  lemma DropFiled(next: Links, free: set<int>, lists: Lists, hand: set<int>, a: int, c: int)
    requires Filed(next, free, lists, hand)
    requires a !in hand && a in free && InClass(next, a, c)
    ensures 0 <= c < CLASS_COUNT && a in lists[c]
    ensures Filed(next, free, Drop(lists, c, a), hand + {a})
  {
    var i :| 0 <= i < |lists[c]| && lists[c][i] == a;
    WithoutAt(lists[c], i);
    DropTyped(next, free, lists, hand, a, c, i);
    DropDistinct(lists, a, c, i);
    DropComplete(next, free, lists, hand, a, c, i);
  }

  lemma DropTyped(next: Links, free: set<int>, lists: Lists, hand: set<int>, a: int, c: int, i: int)
    requires Typed(next, free, lists, hand) && Distinct(lists) && InClass(next, a, c)
    requires 0 <= c < |lists| && 0 <= i < |lists[c]| && lists[c][i] == a
    requires Without(lists[c], a) == lists[c][..i] + lists[c][i + 1..]
    ensures Typed(next, free, Drop(lists, c, a), hand + {a})
  {
    var l' := Drop(lists, c, a);
    forall k, j | 0 <= k < |l'| && 0 <= j < |l'[k]|
      ensures l'[k][j] in free && l'[k][j] !in hand + {a} && InClass(next, l'[k][j], k)
    {
      var m := if k == c && j >= i then j + 1 else j;
      assert l'[k][j] == lists[k][m];
    }
  }

  lemma DropDistinct(lists: Lists, a: int, c: int, i: int)
    requires Distinct(lists)
    requires 0 <= c < |lists| && 0 <= i < |lists[c]|
    requires Without(lists[c], a) == lists[c][..i] + lists[c][i + 1..]
    ensures Distinct(Drop(lists, c, a))
  {
    var l := Without(lists[c], a);
    assert forall j :: 0 <= j < |l| ==> l[j] == lists[c][if j < i then j else j + 1];
  }

  lemma DropComplete(next: Links, free: set<int>, lists: Lists, hand: set<int>, a: int, c: int, i: int)
    requires Complete(next, free, lists, hand)
    requires 0 <= c < |lists| && 0 <= i < |lists[c]| && lists[c][i] == a
    requires Without(lists[c], a) == lists[c][..i] + lists[c][i + 1..]
    ensures Complete(next, free, Drop(lists, c, a), hand + {a})
  {
    var l' := Drop(lists, c, a);
    forall b | b in free && b !in hand + {a}
      ensures exists k :: 0 <= k < |l'| && InClass(next, b, k) && b in l'[k]
    {
      var k :| 0 <= k < |lists| && InClass(next, b, k) && b in lists[k];
      var j :| 0 <= j < |lists[k]| && lists[k][j] == b;
      if k == c { assert l'[c][if j < i then j else j - 1] == b; }
    }
  }
}
