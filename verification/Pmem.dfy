// sys/hive/mm/pmem.c: the physical frame allocator, one bit per frame.
module Pmem {
  import opened Param

  type Byte = b: seq<bool> | |b| == 8 witness [false, false, false, false, false, false, false, false]

  // ALIGN_UP to the page size on 64-bit addresses.
  function PageUp(x: nat): (r: nat)
    ensures x + PAGESIZE <= SIZE_T_RANGE ==> x <= r < x + PAGESIZE && r % PAGESIZE == 0
  {
    var t := (x + (PAGESIZE - 1)) % SIZE_T_RANGE;
    t - t % PAGESIZE
  }

  lemma PageUpFixed(x: nat)
    requires x % PAGESIZE == 0 && x + PAGESIZE <= SIZE_T_RANGE
    ensures PageUp(x) == x
  {
  }

  lemma RangePages(first: nat, count: nat)
    requires (first + count + 1) * PAGESIZE <= SIZE_T_RANGE
    ensures PageUp(first * PAGESIZE) / PAGESIZE == first
    ensures PageUp(first * PAGESIZE + count * PAGESIZE) == (first + count) * PAGESIZE
  {
    PageUpFixed(first * PAGESIZE);
    PageUpFixed((first + count) * PAGESIZE);
  }

  // ---- Specification on the bits alone; a set bit is an allocated frame ----

  function Filled(bits: seq<bool>, lo: int, hi: int, v: bool): (r: seq<bool>)
    ensures |r| == |bits|
    ensures forall k :: 0 <= k < |bits| ==> r[k] == if lo <= k < hi then v else bits[k]
  {
    seq(|bits|, k requires 0 <= k < |bits| => if lo <= k < hi then v else bits[k])
  }

  // The scan of pmem_alloc from bit i on: start_idx when the loop ends.
  function Scan(bits: seq<bool>, max: nat, count: nat, i: nat, start: int, found: nat): int
    requires max <= |bits|
    decreases max - i
  {
    if i >= max then start
    else if bits[i] then Scan(bits, max, count, i + 1, -1, found)
    else
      var s := if start < 0 then i else start;
      if found + 1 >= count then s else Scan(bits, max, count, i + 1, s, found + 1)
  }

  // ---- What the scan finds, for any count ----

  // How many frames of [lo, hi) are clear.
  function ClearIn(bits: seq<bool>, lo: nat, hi: nat): (n: nat)
    requires hi <= |bits|
    decreases hi
  {
    if hi <= lo then 0 else ClearIn(bits, lo, hi - 1) + (if bits[hi - 1] then 0 else 1)
  }

  ghost predicate AllClear(bits: seq<bool>, lo: int, hi: int) {
    0 <= lo && hi <= |bits| && forall k :: lo <= k < hi ==> !bits[k]
  }

  // s is where the run of clear frames through frame i starts.
  ghost predicate RunStart(bits: seq<bool>, lo: nat, s: int, i: int) {
    lo <= s <= i && AllClear(bits, s, i + 1) && (s == lo || bits[s - 1])
  }

  // The run that holds the count-th clear frame from lo on; when there are not as
  // many, the run that reaches max, and -1 when none does.
  ghost predicate Finds(bits: seq<bool>, max: nat, count: nat, lo: nat, s: int) {
    && max <= |bits|
    && if ClearIn(bits, lo, max) >= count then
         exists i :: NthClear(bits, max, count, lo, i) && RunStart(bits, lo, s, i)
       else (s == -1 && (max <= lo || bits[max - 1])) || RunStart(bits, lo, s, max - 1)
  }

  ghost predicate NthClear(bits: seq<bool>, max: nat, count: nat, lo: nat, i: int) {
    lo <= i < max <= |bits| && !bits[i] && ClearIn(bits, lo, i + 1) == count
  }

  // Asking for no frame scans as asking for one does.
  lemma ScanFinds(bits: seq<bool>, max: nat, count: nat, lo: nat)
    requires max <= |bits|
    ensures Finds(bits, max, if count == 0 then 1 else count, lo, Scan(bits, max, count, lo, -1, 0))
    decreases if count == 0 then 1 else 0
  {
    if count == 0 {
      NoneIsOne(bits, max, lo, -1, 0);
      ScanFinds(bits, max, 1, lo);
    } else if lo < max {
      ScanFrom(bits, max, count, lo, lo, -1);
    } else {
      NoneBelow(bits, lo, max);
    }
  }

  lemma {:induction false} NoneIsOne(bits: seq<bool>, max: nat, i: nat, start: int, found: nat)
    requires max <= |bits|
    ensures Scan(bits, max, 0, i, start, found) == Scan(bits, max, 1, i, start, found)
    decreases max - i
  {
    if i < max && bits[i] { NoneIsOne(bits, max, i + 1, -1, found); }
  }

  // The scan in the middle of its loop, with what it has seen so far.
  lemma {:induction false} ScanFrom(bits: seq<bool>, max: nat, count: nat, lo: nat, i: nat, start: int)
    requires lo <= i <= max <= |bits| && lo < max && ClearIn(bits, lo, i) < count
    requires if start < 0 then start == -1 && (i == lo || bits[i - 1]) else RunStart(bits, lo, start, i - 1)
    ensures Finds(bits, max, count, lo, Scan(bits, max, count, i, start, ClearIn(bits, lo, i)))
    decreases max - i
  {
    if i < max {
      if bits[i] {
        ScanFrom(bits, max, count, lo, i + 1, -1);
      } else {
        var s := if start < 0 then i else start;
        assert RunStart(bits, lo, s, i);
        if ClearIn(bits, lo, i) + 1 >= count {
          assert NthClear(bits, max, count, lo, i);
          ClearGrows(bits, lo, i + 1, max);
        } else {
          ScanFrom(bits, max, count, lo, i + 1, s);
        }
      }
    }
  }

  lemma {:induction false} ClearGrows(bits: seq<bool>, lo: nat, hi: nat, hi': nat)
    requires hi <= hi' <= |bits|
    ensures ClearIn(bits, lo, hi) <= ClearIn(bits, lo, hi')
    decreases hi'
  {
    if hi < hi' { ClearGrows(bits, lo, hi, hi' - 1); }
  }

  lemma NoneBelow(bits: seq<bool>, lo: nat, max: nat)
    requires max <= lo && max <= |bits|
    ensures ClearIn(bits, lo, max) == 0
  {
  }

  // The bitmap has count clear frames in a row, the count-th clear one among them.
  ghost predicate Window(bits: seq<bool>, max: nat, count: nat, lo: nat, r: int, i: int) {
    NthClear(bits, max, count, lo, i) && lo <= r <= i < r + count <= max && AllClear(bits, r, r + count)
  }

  ghost predicate Served(bits: seq<bool>, max: nat, count: nat, lo: nat) {
    exists r, i :: Window(bits, max, count, lo, r, i)
  }

  lemma RunStartsBefore(bits: seq<bool>, lo: nat, s: int, i: int, r: int)
    requires lo <= r <= i < |bits| && RunStart(bits, lo, s, i) && AllClear(bits, r, i + 1)
    ensures s <= r
  {
  }

  // The range answered is clear, and below max, exactly then.
  lemma RangeClearIff(bits: seq<bool>, max: nat, count: nat, lo: nat)
    requires max <= |bits| && count >= 1
    ensures var s := Scan(bits, max, count, lo, -1, 0);
      s >= 0 && s + count <= max && AllClear(bits, s, s + count) <==> Served(bits, max, count, lo)
  {
    hide Scan;
    var s := Scan(bits, max, count, lo, -1, 0);
    ScanFinds(bits, max, count, lo);
    if ClearIn(bits, lo, max) >= count {
      var j :| NthClear(bits, max, count, lo, j) && RunStart(bits, lo, s, j);
      RunCounts(bits, lo, s, j + 1);
      if s + count <= max && AllClear(bits, s, s + count) {
        assert Window(bits, max, count, lo, s, j);
      }
      forall r, i | Window(bits, max, count, lo, r, i)
        ensures s + count <= max && AllClear(bits, s, s + count)
      {
        NthIsOne(bits, max, count, lo, i, j);
        RunStartsBefore(bits, lo, s, j, r);
      }
    } else {
      if s >= 0 { RunCounts(bits, lo, s, max); }
      forall r, i
        ensures !Window(bits, max, count, lo, r, i)
      {
        if NthClear(bits, max, count, lo, i) { ClearGrows(bits, lo, i + 1, max); }
      }
    }
  }

  // Where there are as many clear frames, the scan stops at the one that completes
  // the count. It has then seen the whole range it answers exactly when that many
  // clear frames follow the lowest clear one; that is the range it answers then.
  lemma RangeSeenIff(bits: seq<bool>, max: nat, count: nat, lo: nat, first: int, i: int)
    requires max <= |bits| && count >= 1 && LowestClear(bits, lo, max, first) && first >= 0
    requires NthClear(bits, max, count, lo, i)
    ensures var s := Scan(bits, max, count, lo, -1, 0);
      && RunStart(bits, lo, s, i)
      && (i == s + count - 1 <==> first + count <= max && AllClear(bits, first, first + count))
      && (i == s + count - 1 ==> s == first)
  {
    hide Scan;
    var s := Scan(bits, max, count, lo, -1, 0);
    ScanFinds(bits, max, count, lo);
    ClearGrows(bits, lo, i + 1, max);
    var j :| NthClear(bits, max, count, lo, j) && RunStart(bits, lo, s, j);
    NthIsOne(bits, max, count, lo, i, j);
    RunCounts(bits, lo, s, i + 1);
    NoneBefore(bits, lo, first);
    if i == s + count - 1 {
      assert ClearIn(bits, lo, s) == 0;
      ClearCounted(bits, lo, first, s);
    } else if first + count <= max && AllClear(bits, first, first + count) {
      RunCounts(bits, lo, first, first + count);
      NthIsOne(bits, max, count, lo, i, first + count - 1);
      assert false;
    }
  }

  lemma {:induction false} NthIsOne(bits: seq<bool>, max: nat, count: nat, lo: nat, i: int, j: int)
    requires NthClear(bits, max, count, lo, i) && NthClear(bits, max, count, lo, j)
    ensures i == j
  {
    if i < j {
      ClearGrows(bits, lo, i + 1, j);
    } else if j < i {
      ClearGrows(bits, lo, j + 1, i);
    }
  }

  lemma {:induction false} RunCounts(bits: seq<bool>, lo: nat, s: nat, hi: nat)
    requires lo <= s <= hi <= |bits| && AllClear(bits, s, hi)
    ensures ClearIn(bits, lo, hi) == ClearIn(bits, lo, s) + (hi - s)
    decreases hi
  {
    if s < hi { RunCounts(bits, lo, s, hi - 1); }
  }

  lemma {:induction false} NoneBefore(bits: seq<bool>, lo: nat, hi: nat)
    requires lo <= hi <= |bits| && forall k :: lo <= k < hi ==> bits[k]
    ensures ClearIn(bits, lo, hi) == 0
    decreases hi
  {
    if lo < hi { NoneBefore(bits, lo, hi - 1); }
  }

  // A clear frame below s counts.
  lemma ClearCounted(bits: seq<bool>, lo: nat, first: nat, s: nat)
    requires lo <= first <= |bits| && s <= |bits| && first < |bits| && !bits[first]
    ensures first < s ==> ClearIn(bits, lo, s) > 0
  {
    if first < s { ClearGrows(bits, lo, first + 1, s); }
  }

  // Else the range may hold a frame that is taken: two frames asked of one clear
  // frame before a taken one and one behind it give frames 2 and 3.
  lemma RangeCanOverlap()
    ensures var bits := [false, true, false, true];
      Scan(bits, 4, 2, 0, -1, 0) == 2 && bits[3]
  {
    var bits := [false, true, false, true];
    assert Scan(bits, 4, 2, 2, -1, 1) == 2;
    assert Scan(bits, 4, 2, 1, 0, 1) == 2;
  }

  // r is the lowest clear frame in [lo, max), -1 when there is none.
  ghost predicate LowestClear(bits: seq<bool>, lo: int, max: int, r: int) {
    && 0 <= lo && max <= |bits|
    && (r == -1 || (lo <= r < max && !bits[r]))
    && forall k :: lo <= k < (if r == -1 then max else r) ==> bits[k]
  }

  // For a single frame the scan is a search for the lowest clear bit.
  lemma {:induction false} ScanOne(bits: seq<bool>, max: nat, i: nat)
    requires max <= |bits|
    ensures LowestClear(bits, i, max, Scan(bits, max, 1, i, -1, 0))
    decreases max - i
  {
    if i < max && bits[i] { ScanOne(bits, max, i + 1); }
  }

  // mm_pmem_alloc(1) in full: the frame handed out, 0 for none, and the bits
  // after. Frame 0 cannot be told from failure: when clear, it is set and lost.
  ghost predicate Allocated(bits: seq<bool>, max: nat, frame: int, bits': seq<bool>) {
    && max <= |bits|
    && LowestClear(bits, 1, max, if frame == 0 then -1 else frame)
    && var zeroLost := Filled(bits, 0, if max > 0 then 1 else 0, true);
       bits' == if frame > 0 then Filled(zeroLost, frame, frame + 1, true) else zeroLost
  }

  // What one pmem_alloc answers and marks.
  ghost predicate Scanned(bits: seq<bool>, max: nat, count: nat, last: nat, frame: int, bits': seq<bool>)
    requires max <= |bits|
  {
    var s := Scan(bits, max, count, last, -1, 0);
    if s < 0 then frame == 0 && bits' == bits else frame == s && bits' == Filled(bits, s, s + count, true)
  }

  // One scan, and a second one when the first came back with frame 0 or nothing.
  ghost predicate Drawn(bits: seq<bool>, max: nat, count: nat, frame: int, bits': seq<bool>)
    requires max <= |bits|
  {
    var s := Scan(bits, max, count, 0, -1, 0);
    if s > 0 then Scanned(bits, max, count, 0, frame, bits')
    else Scanned(if s < 0 then bits else Filled(bits, 0, count, true), max, count, 0, frame, bits')
  }

  lemma TwoScans(bits: seq<bool>, middle: seq<bool>, bits': seq<bool>, max: nat, count: nat, f: int, frame: int)
    requires max <= |bits| && Scanned(bits, max, count, 0, f, middle)
    requires |middle| == |bits|
    requires if f == 0 then Scanned(middle, max, count, 0, frame, bits') else frame == f && bits' == middle
    ensures Drawn(bits, max, count, frame, bits')
    ensures |bits'| == |bits| && forall k :: 0 <= k < |bits| && bits[k] ==> bits'[k]
    ensures count == 1 ==> Allocated(bits, max, frame, bits')
  {
    hide Scan;
    if count == 1 {
      ScanOne(bits, max, 0);
      ScanOne(middle, max, 0);
    }
  }

  // The frame handed out was free and not frame 0, and no frame is released.
  lemma StillSet(bits: seq<bool>, bits': seq<bool>, max: nat, frame: nat)
    requires Allocated(bits, max, frame, bits')
    ensures max <= |bits| == |bits'|
    ensures frame != 0 ==> frame < max && !bits[frame] && bits'[frame]
    ensures forall k :: 0 <= k < |bits| && bits[k] ==> bits'[k]
  {
  }

  // Whether what is handed out was clear, and below max: by the bitmap as it is
  // when the scan that answers begins, which is after the first frames have been
  // marked and lost when the first scan came back with frame 0.
  lemma DrawnClearIff(bits: seq<bool>, max: nat, count: nat, frame: int, bits': seq<bool>)
    requires max <= |bits| && count >= 1 && Drawn(bits, max, count, frame, bits') && frame != 0
    ensures var lost := Scan(bits, max, count, 0, -1, 0) == 0;
      frame + count <= max && AllClear(bits, frame, frame + count)
      <==> Served(if lost then Filled(bits, 0, count, true) else bits, max, count, 0)
  {
    hide Scan;
    var s := Scan(bits, max, count, 0, -1, 0);
    var seen := if s == 0 then Filled(bits, 0, count, true) else bits;
    RangeClearIff(seen, max, count, 0);
    if s == 0 {
      ScanFinds(seen, max, count, 0);
      assert !seen[frame];
    }
  }

  // Nothing is handed out exactly when the scan that answers meets fewer clear
  // frames than asked for and a taken one at the end; else its range is marked.
  lemma DrawnNothingIff(bits: seq<bool>, max: nat, count: nat, frame: int, bits': seq<bool>)
    requires max <= |bits| && count >= 1 && Drawn(bits, max, count, frame, bits')
    ensures var lost := Scan(bits, max, count, 0, -1, 0) == 0;
      var seen := if lost then Filled(bits, 0, count, true) else bits;
      && (frame == 0 <==> ClearIn(seen, 0, max) < count && (max == 0 || seen[max - 1]))
      && bits' == if frame == 0 then seen else Filled(seen, frame, frame + count, true)
  {
    hide Scan, ClearIn;
    var s := Scan(bits, max, count, 0, -1, 0);
    ScanFinds(bits, max, count, 0);
    if s == 0 {
      var seen := Filled(bits, 0, count, true);
      ScanFinds(seen, max, count, 0);
      assert |bits| > 0 && seen[0];
    }
  }

  // When the lowest clear frame is not 0 and enough clear ones follow it, exactly
  // these are handed out.
  lemma GrantsFirstRun(bits: seq<bool>, max: nat, count: nat, frame: int, bits': seq<bool>, first: int)
    requires max <= |bits| && count >= 1 && Drawn(bits, max, count, frame, bits')
    requires LowestClear(bits, 0, max, first) && first > 0
    requires first + count <= max && AllClear(bits, first, first + count)
    ensures frame == first && bits' == Filled(bits, first, first + count, true)
  {
    hide Scan;
    NoneBefore(bits, 0, first);
    RunCounts(bits, 0, first, first + count);
    RangeSeenIff(bits, max, count, 0, first, first + count - 1);
  }

  class FrameAllocator {
    const bitmap: array<Byte>
    const usableTop: nat
    var lastBit: nat

    // Frames handed out by Alloc(1) and not given back since.
    ghost var outstanding: set<int>

    // The allocator over a bitmap made at boot.
    constructor (bitmap: array<Byte>, usableTop: nat)
      requires usableTop / PAGESIZE <= 8 * bitmap.Length && usableTop + 2 * PAGESIZE <= SIZE_T_RANGE
      ensures Valid() && this.bitmap == bitmap && this.usableTop == usableTop && outstanding == {}
    {
      this.bitmap, this.usableTop, lastBit, outstanding := bitmap, usableTop, 0, {};
    }

    function Frames(): (n: nat) { usableTop / PAGESIZE }

    ghost function Bits(): (s: seq<bool>)
      reads bitmap
      ensures |s| == 8 * bitmap.Length
      ensures forall i :: 0 <= i < |s| ==> s[i] == bitmap[i / 8][i % 8]
    {
      seq(8 * bitmap.Length, i requires 0 <= i < 8 * bitmap.Length reads bitmap => bitmap[i / 8][i % 8])
    }

    // The bitmap has a bit for every frame that count frames from below
    // usable_top can reach, and their addresses do not wrap.
    ghost predicate Covers(count: nat) {
      && Frames() + count <= 8 * bitmap.Length + 1
      && (Frames() + count + 1) * PAGESIZE <= SIZE_T_RANGE
    }

    ghost predicate Valid()
      reads this, bitmap
    {
      && Covers(1) && lastBit == 0
      && forall f :: f in outstanding ==> 0 < f < Frames() && Bits()[f]
    }

    // TESTBIT; SETBIT and CLRBIT.
    function TestBit(i: nat): (b: bool)
      requires i < 8 * bitmap.Length
      reads bitmap
      ensures b == Bits()[i]
    {
      bitmap[i / 8][i % 8]
    }

    method SetBit(i: nat, v: bool)
      requires i < 8 * bitmap.Length
      modifies bitmap
      ensures Bits() == old(Bits())[i := v]
    {
      bitmap[i / 8] := bitmap[i / 8][i % 8 := v];
    }

    // bitmap_set_range.
    method SetRange(start0: nat, end0: nat, alloc: bool)
      requires PageUp(end0) <= 8 * bitmap.Length * PAGESIZE
      modifies bitmap
      ensures Bits() == Filled(old(Bits()), PageUp(start0) / PAGESIZE, PageUp(end0) / PAGESIZE, alloc)
    {
      var start, end := PageUp(start0), PageUp(end0);
      ghost var before := Bits();
      var p := start;
      while p < end
        invariant start <= p && p % PAGESIZE == 0 && (p <= end || p == start)
        invariant Bits() == Filled(before, start / PAGESIZE, p / PAGESIZE, alloc)
      {
        SetBit(p / PAGESIZE, alloc);
        p := p + PAGESIZE;
      }
    }

    // pmem_alloc.
    method PmemAlloc(count: nat) returns (start: nat)
      requires Covers(count) && Covers(1)
      modifies bitmap
      ensures start % PAGESIZE == 0 && Scanned(old(Bits()), Frames(), count, lastBit, start / PAGESIZE, Bits())
    {
      hide FrameAllocator.Bits, FrameAllocator.TestBit, PageUp, Filled, LowestClear;
      var startIdx, framesFound := -1, 0;
      var maxBit := usableTop / PAGESIZE;
      var i := lastBit;
      ghost var s := Scan(Bits(), Frames(), count, lastBit, -1, 0);
      while i < maxBit
        invariant framesFound >= 0 && -1 <= startIdx < maxBit
        invariant s == Scan(Bits(), maxBit, count, i, startIdx, framesFound)
      {
        if !TestBit(i) {
          if startIdx < 0 { startIdx := i; }
          framesFound := framesFound + 1;
          if framesFound >= count { break; }
        } else {
          startIdx := -1;
        }
        i := i + 1;
      }
      assert s == startIdx;
      hide Scan;
      if startIdx < 0 {
        return 0;
      }
      start := startIdx * PAGESIZE;
      var end := start + count * PAGESIZE;
      RangePages(startIdx, count);
      SetRange(start, end, true);
    }

    // mm_pmem_alloc.
    method Alloc(count: nat) returns (phys: nat)
      requires Valid() && (count == 1 || Covers(count))
      modifies this, bitmap
      ensures Valid() && phys % PAGESIZE == 0
      ensures Drawn(old(Bits()), Frames(), count, phys / PAGESIZE, Bits())
      ensures count == 1 ==> Allocated(old(Bits()), Frames(), phys / PAGESIZE, Bits())
      ensures outstanding == old(outstanding) + (if count != 1 || phys == 0 then {} else {phys / PAGESIZE})
      ensures count == 1 && phys != 0 ==> phys / PAGESIZE !in old(outstanding)
    {
      hide Filled, Scan, LowestClear, Allocated, Scanned, Drawn, FrameAllocator.Bits;
      ghost var before := Bits();
      phys := PmemAlloc(count);
      ghost var first, middle := phys / PAGESIZE, Bits();
      if phys == 0 {
        lastBit := 0;
        phys := PmemAlloc(count);
      }
      TwoScans(before, middle, Bits(), Frames(), count, first, phys / PAGESIZE);
      if count == 1 {
        StillSet(before, Bits(), Frames(), phys / PAGESIZE);
        outstanding := outstanding + if phys == 0 then {} else {phys / PAGESIZE};
      }
    }

    // mm_pmem_free.
    method Free(base: nat, count: nat)
      requires PageUp(base + count * PAGESIZE) <= 8 * bitmap.Length * PAGESIZE
      requires Valid()
      modifies this, bitmap
      ensures Bits() == Filled(old(Bits()), PageUp(base) / PAGESIZE, PageUp(base + count * PAGESIZE) / PAGESIZE, false)
      ensures Valid() && lastBit == old(lastBit)
      ensures outstanding == set f | f in old(outstanding)
        && !(PageUp(base) / PAGESIZE <= f < PageUp(base + count * PAGESIZE) / PAGESIZE)
    {
      var rangeEnd := base + count * PAGESIZE;
      SetRange(base, rangeEnd, false);
      outstanding := set f | f in outstanding && !(PageUp(base) / PAGESIZE <= f < PageUp(rangeEnd) / PAGESIZE);
    }
  }

  // ---- Runs ----

  // Ask for a frame, or give back the i-th of those held.
  datatype Request = Take | GiveBack(i: nat)

  ghost predicate NoneTwice(held: seq<int>) {
    forall i, j :: 0 <= i < j < |held| ==> held[i] != held[j]
  }

  // Which frames are held, and the bitmap they leave: beyond frame 0, a bit is
  // set exactly when it was set at the start or its frame is held now.
  ghost predicate Accounts(before: seq<bool>, held: seq<int>, after: seq<bool>, max: nat) {
    && NoneTwice(held) && max <= |before| == |after|
    && (forall f :: f in held ==> 0 < f < max && !before[f])
    && forall k :: 0 < k < |after| ==> (after[k] <==> before[k] || k in held)
  }

  lemma TakeAccounts(before: seq<bool>, held: seq<int>, bits: seq<bool>, bits': seq<bool>, max: nat, frame: nat)
    requires Accounts(before, held, bits, max) && Allocated(bits, max, frame, bits')
    ensures Accounts(before, if frame == 0 then held else held + [frame], bits', max)
    ensures frame == 0 ==> forall k :: 0 < k < max ==> before[k] || k in held
  {
    if frame != 0 { assert !bits[frame] && frame !in held; }
  }

  lemma GiveBackAccounts(before: seq<bool>, held: seq<int>, bits: seq<bool>, max: nat, i: nat)
    requires Accounts(before, held, bits, max) && i < |held|
    ensures Accounts(before, held[..i] + held[i + 1..], Filled(bits, held[i], held[i] + 1, false), max)
  {
    var rest := held[..i] + held[i + 1..];
    assert forall j :: 0 <= j < |rest| ==> rest[j] == held[if j < i then j else j + 1];
    forall k
      ensures k in rest <==> k in held && k != held[i]
    {
      if k in held && k != held[i] {
        var j :| 0 <= j < |held| && held[j] == k;
        assert rest[if j < i then j else j - 1] == k;
      }
    }
  }

  // Any run of single-frame requests: no frame is ever held twice, none is frame
  // 0, and the bitmap accounts for exactly the frames held.
  method Drive(m: FrameAllocator, schedule: seq<Request>) returns (held: seq<int>)
    requires m.Valid()
    modifies m, m.bitmap
    ensures m.Valid() && Accounts(old(m.Bits()), held, m.Bits(), m.Frames())
  {
    hide Accounts, Allocated, Filled;
    held := [];
    ghost var before := m.Bits();
    NothingHeld(before, m.Frames());
    for n := 0 to |schedule|
      invariant m.Valid()
      invariant Accounts(before, held, m.Bits(), m.Frames())
    {
      ghost var bits := m.Bits();
      match schedule[n]
      case Take =>
        var phys := m.Alloc(1);
        TakeAccounts(before, held, bits, m.Bits(), m.Frames(), phys / PAGESIZE);
        if phys != 0 { held := held + [phys / PAGESIZE]; }
      case GiveBack(i) =>
        if i < |held| {
          HeldInRange(before, held, bits, m.Frames(), i);
          GiveBackAccounts(before, held, bits, m.Frames(), i);
          RangePages(held[i], 1);
          m.Free(held[i] * PAGESIZE, 1);
          held := held[..i] + held[i + 1..];
        }
    }
  }

  lemma NothingHeld(bits: seq<bool>, max: nat)
    requires max <= |bits|
    ensures Accounts(bits, [], bits, max)
  {
  }

  lemma HeldInRange(before: seq<bool>, held: seq<int>, bits: seq<bool>, max: nat, i: nat)
    requires Accounts(before, held, bits, max) && i < |held|
    ensures 0 < held[i] < max
  {
    assert held[i] in held;
  }
}
