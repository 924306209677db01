// How the abstract heap is kept in the words of the pool: boundary tags, the
// predecessor pointer overlaid on the last payload word, and in-band list links.
module HeapMemory {
  import opened Heap
  import opened Header

  // The 64-bit word at an 8-aligned byte address.
  type Mem = map<int, int>

  // Offsets of next_free and prev_free in block_header_t; prev_phys_block is at
  // offset 0 and size at offset 8.
  const NEXT_FREE_AT := 16
  const PREV_FREE_AT := 24

  ghost predicate PrevFree(prev: Links, free: set<int>, a: int) {
    a in prev && prev[a] in free
  }

  // Every size word carries the block's size and the two status bits.
  ghost predicate Tagged(m: Mem, next: Links, prev: Links, free: set<int>) {
    forall a :: a in next ==> TaggedAt(m, next, prev, free, a)
  }

  ghost predicate TaggedAt(m: Mem, next: Links, prev: Links, free: set<int>, a: int)
    requires a in next
  {
    a + 8 in m && Says(m[a + 8], Size(next, a), a in free, PrevFree(prev, free, a))
  }

  // prev_phys_block of the block after a free block points back at it.
  ghost predicate Footed(m: Mem, next: Links, free: set<int>) {
    forall a {:trigger next[a]} :: a in free && a in next ==> next[a] in m && m[next[a]] == a
  }

  function NextLink(nul: int, l: seq<int>, i: int): int
    requires 0 <= i < |l|
  {
    if i + 1 < |l| then l[i + 1] else nul
  }

  function PrevLink(nul: int, l: seq<int>, i: int): int
    requires 0 <= i < |l|
  {
    if i > 0 then l[i - 1] else nul
  }

  ghost predicate LinkedAt(m: Mem, nul: int, l: seq<int>, i: int)
    requires 0 <= i < |l|
  {
    && l[i] + 16 in m && m[l[i] + 16] == NextLink(nul, l, i)
    && l[i] + 24 in m && m[l[i] + 24] == PrevLink(nul, l, i)
  }

  ghost predicate Linked(m: Mem, nul: int, l: seq<int>) {
    forall i :: 0 <= i < |l| ==> LinkedAt(m, nul, l, i)
  }

  // Each free list is a doubly linked list ending at block_null on both sides.
  ghost predicate AllLinked(m: Mem, nul: int, lists: Lists) {
    forall c :: 0 <= c < |lists| ==> Linked(m, nul, lists[c])
  }

  // Everything the allocator keeps in memory about the abstract heap.
  ghost predicate Represents(m: Mem, nul: int, next: Links, prev: Links, free: set<int>, lists: Lists) {
    Tagged(m, next, prev, free) && Footed(m, next, free) && AllLinked(m, nul, lists)
  }

  // Writes are confined to the addresses in w.
  ghost predicate WritesOnly(m: Mem, m': Mem, w: set<int>) {
    m'.Keys == m.Keys && forall x :: x in m && x !in w ==> x in m' && m'[x] == m[x]
  }

  // ---- Which words belong to whom ----

  lemma Apart(first: int, last: int, next: Links, prev: Links, a: int, b: int)
    requires Shaped(first, last, next, prev) && Separate(next)
    requires a in next && b in next && a != b
    ensures a + 32 <= b || b + 32 <= a
  {
  }

  // Only the successor of a has a as its predecessor.
  lemma OnlyPrev(last: int, next: Links, prev: Links, a: int, b: int)
    requires Chained(last, next, prev) && a in next && a != last && b in prev
    ensures next[a] in prev && prev[next[a]] == a && (prev[b] == a ==> b == next[a])
  {
  }

  // Size words of blocks, or words in the payload of block a (which ends with
  // the predecessor pointer of the next block).
  ghost predicate HeaderWords(next: Links, a: int, w: set<int>)
    requires a in next
  {
    forall x :: x in w ==> x - 8 in next || a + 16 <= x < next[a] + 8
  }

  // Link words of free blocks, or those of block_null.
  ghost predicate LinkWords(nul: int, next: Links, free: set<int>, w: set<int>) {
    forall x :: x in w ==>
      || x == nul + 16 || x == nul + 24
      || (x - 16 in next && x - 16 in free) || (x - 24 in next && x - 24 in free)
  }

  lemma HeaderWordsMissLinks(first: int, last: int, next: Links, prev: Links, a: int, w: set<int>, l: int)
    requires Shaped(first, last, next, prev) && Separate(next)
    requires a in next && HeaderWords(next, a, w) && l in next && l != a && l != last
    ensures l + 16 !in w && l + 24 !in w
  {
  }

  lemma HeaderWordsMissFooters(first: int, last: int, next: Links, prev: Links, a: int, w: set<int>, b: int)
    requires Shaped(first, last, next, prev) && Separate(next)
    requires a in next && a != last && HeaderWords(next, a, w)
    requires b in next && b != a && b != last && next[b] in next
    ensures next[b] !in w
  {
  }

  lemma LinkWordsMissHeaders(first: int, last: int, next: Links, prev: Links, nul: int, free: set<int>,
                             w: set<int>, b: int)
    requires Shaped(first, last, next, prev) && Separate(next) && nul + 32 <= first
    requires LinkWords(nul, next, free, w) && b in next
    ensures b + 8 !in w && b !in w
  {
  }

  // ---- Payloads of used blocks ----

  ghost predicate PayloadKept(m: Mem, m': Mem, a: int, end: int) {
    forall x :: a + 16 <= x < end + 8 && x in m ==> x in m' && m'[x] == m[x]
  }

  // Every used block but the one named keeps its payload, word for word.
  ghost predicate PayloadsKept(m: Mem, m': Mem, next: Links, free: set<int>, but: int) {
    forall b :: b in next && b !in free && b != but ==> PayloadKept(m, m', b, next[b])
  }

  lemma PayloadKeptTwice(m: Mem, m1: Mem, m2: Mem, a: int, end: int)
    requires PayloadKept(m, m1, a, end) && PayloadKept(m1, m2, a, end)
    ensures PayloadKept(m, m2, a, end)
  {
  }

  lemma HeaderWritesKeepPayloads(next: Links, free: set<int>, m: Mem, m': Mem, a: int, w: set<int>)
    requires Separate(next) && a in next && HeaderWords(next, a, w) && WritesOnly(m, m', w)
    requires next[a] > a
    ensures PayloadsKept(m, m', next, free, a)
  {
  }

  lemma LinkWritesKeepPayloads(first: int, last: int, next: Links, prev: Links, nul: int, free: set<int>,
                               m: Mem, m': Mem, w: set<int>, but: int)
    requires Shaped(first, last, next, prev) && Separate(next) && nul + 32 <= first && last !in free
    requires LinkWords(nul, next, free, w) && WritesOnly(m, m', w)
    ensures PayloadsKept(m, m', next, free, but)
  {
    forall b | b in next && b !in free && b != but
      ensures PayloadKept(m, m', b, next[b])
    {
      forall x | b + 16 <= x < next[b] + 8
        ensures x !in w
      {
        LinkWordsMissPayloads(first, last, next, prev, nul, free, w, b, x);
      }
    }
  }

  lemma LinkWordsMissPayloads(first: int, last: int, next: Links, prev: Links, nul: int, free: set<int>,
                              w: set<int>, b: int, x: int)
    requires Shaped(first, last, next, prev) && Separate(next) && nul + 32 <= first && last !in free
    requires LinkWords(nul, next, free, w) && b in next && b !in free && b + 16 <= x < next[b] + 8
    ensures x !in w
  {
  }

  // ---- Tags ----

  // A block keeps its tag when its word and what the word says are unchanged.
  lemma TagKept(m: Mem, m': Mem, next: Links, next': Links, prev: Links, prev': Links,
                free: set<int>, free': set<int>, b: int)
    requires b in next && b in next' && next'[b] == next[b] && TaggedAt(m, next, prev, free, b)
    requires b + 8 in m' && m'[b + 8] == m[b + 8]
    requires b in free <==> b in free'
    requires PrevFree(prev, free, b) == PrevFree(prev', free', b)
    ensures TaggedAt(m', next', prev', free', b)
  {
  }

  // Freeing or handing out block a: its own word and its successor's change.
  lemma MarkTagged(last: int, next: Links, prev: Links, free: set<int>, free': set<int>,
                   m: Mem, m': Mem, a: int)
    requires Chained(last, next, prev)
    requires a in next && a != last && next[a] in next && next[a] in prev
    requires Tagged(m, next, prev, free)
    requires forall x :: x != a ==> (x in free <==> x in free')
    requires TaggedAt(m', next, prev, free', a) && TaggedAt(m', next, prev, free', next[a])
    requires forall b :: b in next && b != a && b != next[a] ==> b + 8 in m' && m'[b + 8] == m[b + 8]
    ensures Tagged(m', next, prev, free')
  {
    hide TaggedAt;
    forall b | b in next
      ensures TaggedAt(m', next, prev, free', b)
    {
      if b != a && b != next[a] {
        if b in prev { OnlyPrev(last, next, prev, a, b); }
        TagKept(m, m', next, next, prev, prev, free, free', b);
      }
    }
  }

  // Cutting block a at r: the words of a, r and the old successor change.
  lemma CutTagged(last: int, next: Links, prev: Links, free: set<int>, m: Mem, m': Mem, a: int, r: int)
    requires Chained(last, next, prev) && a in next && a != last && r !in next && r !in free && r !in prev
    requires next[a] in next && next[a] in prev
    requires Tagged(m, next, prev, free)
    requires TaggedAt(m', SplitNext(next, a, r), SplitPrev(next, prev, a, r), free + {r}, a)
    requires TaggedAt(m', SplitNext(next, a, r), SplitPrev(next, prev, a, r), free + {r}, r)
    requires TaggedAt(m', SplitNext(next, a, r), SplitPrev(next, prev, a, r), free + {r}, next[a])
    requires forall b :: b in next && b != a && b != next[a] ==> b + 8 in m' && m'[b + 8] == m[b + 8]
    ensures Tagged(m', SplitNext(next, a, r), SplitPrev(next, prev, a, r), free + {r})
  {
    hide TaggedAt;
    var next', prev' := SplitNext(next, a, r), SplitPrev(next, prev, a, r);
    forall b | b in next'
      ensures TaggedAt(m', next', prev', free + {r}, b)
    {
      if b != a && b != r && b != next[a] {
        TagKept(m, m', next, next', prev, prev', free, free + {r}, b);
      }
    }
  }

  // Joining p with its successor: the words of p and of the block after change.
  lemma JoinTagged(last: int, next: Links, prev: Links, free: set<int>, m: Mem, m': Mem, p: int)
    requires Chained(last, next, prev) && p in next && p != last && next[p] in next && next[p] != last
    requires next[next[p]] in next && p != next[p] && next[next[p]] != next[p]
    requires Tagged(m, next, prev, free)
    requires TaggedAt(m', AbsorbNext(next, p), AbsorbPrev(next, prev, p), free - {next[p]}, p)
    requires TaggedAt(m', AbsorbNext(next, p), AbsorbPrev(next, prev, p), free - {next[p]}, next[next[p]])
    requires forall b :: b in next && b != p && b != next[p] && b != next[next[p]] ==>
               b + 8 in m' && m'[b + 8] == m[b + 8]
    ensures Tagged(m', AbsorbNext(next, p), AbsorbPrev(next, prev, p), free - {next[p]})
  {
    hide TaggedAt;
    var n := next[p];
    var next', prev' := AbsorbNext(next, p), AbsorbPrev(next, prev, p);
    forall b | b in next'
      ensures TaggedAt(m', next', prev', free - {n}, b)
    {
      if b != p && b != next[n] {
        if b in prev { OnlyPrev(last, next, prev, n, b); }
        TagKept(m, m', next, next', prev, prev', free, free - {n}, b);
      }
    }
  }

  // ---- Links ----

  lemma HeaderWritesKeepLinks(first: int, last: int, next: Links, prev: Links, free: set<int>, lists: Lists,
                              hand: set<int>, m: Mem, m': Mem, nul: int, a: int, w: set<int>)
    requires Shaped(first, last, next, prev) && Separate(next) && Typed(next, free, lists, hand)
    requires last !in free && (a in hand || a !in free)
    requires a in next && HeaderWords(next, a, w) && WritesOnly(m, m', w)
    requires AllLinked(m, nul, lists)
    ensures AllLinked(m', nul, lists)
  {
    forall c, i | 0 <= c < |lists| && 0 <= i < |lists[c]|
      ensures lists[c][i] + 16 !in w && lists[c][i] + 24 !in w
    {
      assert lists[c][i] in free && InClass(next, lists[c][i], c);
      HeaderWordsMissLinks(first, last, next, prev, a, w, lists[c][i]);
    }
    forall c | 0 <= c < |lists| ensures Linked(m', nul, lists[c]) {
      OtherListKept(m, m', nul, lists[c], w);
    }
  }

  // ---- Predecessor pointers ----

  // Footers of the other free blocks survive writes around block a.
  lemma FootersKept(first: int, last: int, next: Links, prev: Links, free: set<int>,
                    m: Mem, m': Mem, a: int, w: set<int>)
    requires Shaped(first, last, next, prev) && Chained(last, next, prev) && Separate(next)
    requires last !in free && a in next && a != last
    requires HeaderWords(next, a, w) && WritesOnly(m, m', w) && Footed(m, next, free)
    ensures Footed(m', next, free - {a})
  {
    forall b | b in free && b != a && b in next
      ensures next[b] in m' && m'[next[b]] == b
    {
      assert next[b] in next;
      HeaderWordsMissFooters(first, last, next, prev, a, w, b);
    }
  }

  lemma LinkWritesKeepHeaders(first: int, last: int, next: Links, prev: Links, nul: int, free: set<int>,
                              m: Mem, m': Mem, w: set<int>)
    requires Shaped(first, last, next, prev) && Chained(last, next, prev) && Separate(next)
    requires nul + 32 <= first && last !in free
    requires LinkWords(nul, next, free, w) && WritesOnly(m, m', w)
    requires Tagged(m, next, prev, free) && Footed(m, next, free)
    ensures Tagged(m', next, prev, free) && Footed(m', next, free)
  {
    forall b | b in next
      ensures TaggedAt(m', next, prev, free, b)
    {
      LinkWordsMissHeaders(first, last, next, prev, nul, free, w, b);
      TagKept(m, m', next, next, prev, prev, free, free, b);
    }
    forall b | b in free && b in next
      ensures next[b] in m' && m'[next[b]] == b
    {
      assert next[b] in next;
      LinkWordsMissHeaders(first, last, next, prev, nul, free, w, next[b]);
    }
  }

  // ---- Insertion and removal ----

  function HeadOf(nul: int, l: seq<int>): int { if l == [] then nul else l[0] }

  // Distinct blocks, all clear of block_null.
  ghost predicate Spread(nul: int, l: seq<int>) {
    && (forall i :: 0 <= i < |l| ==> nul + 32 <= l[i])
    && (forall i, j :: 0 <= i < j < |l| ==> l[i] + 32 <= l[j] || l[j] + 32 <= l[i])
  }

  // insert_free_block's three stores.
  function Inserted(m: Mem, nul: int, a: int, current: int): Mem {
    m[a + 16 := current][a + 24 := nul][current + 24 := a]
  }

  // remove_free_block's two stores.
  function Removed(m: Mem, prevLink: int, nextLink: int): Mem {
    m[nextLink + 24 := prevLink][prevLink + 16 := nextLink]
  }

  lemma InsertLinked(m: Mem, nul: int, l: seq<int>, a: int)
    requires Linked(m, nul, l) && Spread(nul, [a] + l)
    ensures Linked(Inserted(m, nul, a, HeadOf(nul, l)), nul, [a] + l)
  {
    var l' := [a] + l;
    var m' := Inserted(m, nul, a, HeadOf(nul, l));
    forall i | 0 <= i < |l'|
      ensures LinkedAt(m', nul, l', i)
    {
      assert l'[0] == a && nul + 32 <= a;
      if i > 0 { InsertLinkedAt(m, nul, l, a, i - 1); }
    }
  }

  lemma InsertLinkedAt(m: Mem, nul: int, l: seq<int>, a: int, k: int)
    requires Linked(m, nul, l) && Spread(nul, [a] + l) && 0 <= k < |l|
    ensures LinkedAt(Inserted(m, nul, a, HeadOf(nul, l)), nul, [a] + l, k + 1)
  {
    var l' := [a] + l;
    assert LinkedAt(m, nul, l, k);
    assert l'[0] == a && l'[1] == l[0] && l'[k + 1] == l[k];
    assert nul + 32 <= l'[k + 1];
  }

  function Cutout(l: seq<int>, i: int): (r: seq<int>)
    requires 0 <= i < |l|
  {
    l[..i] + l[i + 1..]
  }

  lemma CutoutAt(l: seq<int>, i: int)
    requires 0 <= i < |l|
    ensures |Cutout(l, i)| == |l| - 1
    ensures forall j :: 0 <= j < |l| - 1 ==> Cutout(l, i)[j] == l[if j < i then j else j + 1]
  {
  }

  lemma RemoveLinked(m: Mem, nul: int, l: seq<int>, i: int)
    requires Linked(m, nul, l) && Spread(nul, l) && 0 <= i < |l|
    ensures Linked(Removed(m, PrevLink(nul, l, i), NextLink(nul, l, i)), nul, Cutout(l, i))
  {
    hide Spread, Removed;
    var l' := Cutout(l, i);
    var m' := Removed(m, PrevLink(nul, l, i), NextLink(nul, l, i));
    CutoutAt(l, i);
    hide Cutout;
    forall j | 0 <= j < |l'|
      ensures LinkedAt(m', nul, l', j)
    {
      var k := if j < i then j else j + 1;
      RemovedNext(m, nul, l, i, k);
      RemovedPrev(m, nul, l, i, k);
    }
  }

  // After the removal of l[i], the links of another element l[k] skip it.
  lemma RemovedNext(m: Mem, nul: int, l: seq<int>, i: int, k: int)
    requires Linked(m, nul, l) && Spread(nul, l) && 0 <= i < |l| && 0 <= k < |l| && k != i
    ensures var m' := Removed(m, PrevLink(nul, l, i), NextLink(nul, l, i));
      l[k] + 16 in m' && m'[l[k] + 16] == NextLink(nul, l, if k + 1 == i then i else k)
  {
    assert LinkedAt(m, nul, l, k) && nul + 32 <= l[k];
  }

  lemma RemovedPrev(m: Mem, nul: int, l: seq<int>, i: int, k: int)
    requires Linked(m, nul, l) && Spread(nul, l) && 0 <= i < |l| && 0 <= k < |l| && k != i
    ensures var m' := Removed(m, PrevLink(nul, l, i), NextLink(nul, l, i));
      l[k] + 24 in m' && m'[l[k] + 24] == PrevLink(nul, l, if k == i + 1 then i else k)
  {
    assert LinkedAt(m, nul, l, k) && nul + 32 <= l[k];
  }

  // Lists that share no block with the one changed are untouched.
  lemma OtherListKept(m: Mem, m': Mem, nul: int, l: seq<int>, w: set<int>)
    requires Linked(m, nul, l) && WritesOnly(m, m', w)
    requires forall i :: 0 <= i < |l| ==> l[i] + 16 !in w && l[i] + 24 !in w
    ensures Linked(m', nul, l)
  {
    forall i | 0 <= i < |l| ensures LinkedAt(m', nul, l, i) {
      assert LinkedAt(m, nul, l, i);
    }
  }

  lemma ListSpread(first: int, last: int, next: Links, prev: Links, free: set<int>, lists: Lists,
                   hand: set<int>, nul: int, c: int)
    requires Shaped(first, last, next, prev) && Separate(next) && nul + 32 <= first
    requires Typed(next, free, lists, hand) && Distinct(lists) && 0 <= c < |lists|
    ensures Spread(nul, lists[c])
    ensures forall a :: a in hand && a in next ==> Spread(nul, [a] + lists[c])
  {
    forall i | 0 <= i < |lists[c]|
      ensures lists[c][i] in next && lists[c][i] !in hand
    {
      assert InClass(next, lists[c][i], c);
    }
  }
}
