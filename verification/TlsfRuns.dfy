// Runs of calls on the allocator itself: memory, bitmaps and list heads
// included.
module TlsfRuns {
  import opened Param
  import opened SizeClass
  import opened Words
  import opened Heap
  import opened HeapOps
  import opened HeapCalls
  import opened HeapAlign
  import opened HeapMemalign
  import opened HeapRealloc
  import opened HeapWalk
  import opened HeapRuns
  import opened HeapRoundTrip
  import opened HeapMemory
  import opened HeapCommit
  import opened Bytes
  import opened FreeIndex
  import opened HeapContents
  import opened HeapPool
  import opened Tlsf

  // tlsf_create_with_pool over a region of memory: NULL when misaligned; else an
  // allocator whose pool, when its size is accepted, is one free block.
  method CreateWithPool(control: int, bytes: nat, memory: Mem) returns (c: Control?)
    requires 0 < control && CONTROL_SIZE <= bytes && control + bytes <= SIZE_T_RANGE
    requires forall x :: control <= x && x + 8 <= control + bytes && Multiple8(x) ==> x in memory
    requires PoolBytes(bytes - CONTROL_SIZE) != BLOCK_SIZE_MAX
    ensures c == null <==> control % ALIGN_SIZE != 0
    ensures c != null ==> fresh(c) && fresh(c.slBitmap) && fresh(c.blocks)
    ensures c != null && PoolTaken(control + CONTROL_SIZE, bytes - CONTROL_SIZE) ==>
      c.Valid() && c.g == PoolGeometry(control, control + CONTROL_SIZE, bytes - CONTROL_SIZE) && c.st == Fresh(c.g)
    ensures c != null && !PoolTaken(control + CONTROL_SIZE, bytes - CONTROL_SIZE) ==> c.Constructed()
  {
    hide PoolBytes, Inv, Indexes, Holds, Mapped, Fresh, Nothing;
    if control % ALIGN_SIZE != 0 {
      return null;
    }
    var pool, poolRegion := control + CONTROL_SIZE, bytes - CONTROL_SIZE;
    var g := PoolGeometry(control, pool, poolRegion);
    var c0 := new Control(g, OwnedPart(g, memory));
    if PoolTaken(pool, poolRegion) {
      PoolBehindControl(control, bytes);
      PoolMapped(memory, control, bytes);
      LinksOwned(g, OwnedPart(g, memory), c0.mem);
    }
    var added := c0.AddPool(pool, poolRegion);
    c := c0;
  }

  lemma LinksOwned(g: Geometry, m: Mem, m': Mem)
    requires Mapped(g, m) && m' == m[g.nul + NEXT_FREE_AT := g.nul][g.nul + PREV_FREE_AT := g.nul]
    ensures Mapped(g, m')
  {
    NulMapped(g, m);
    assert m'.Keys == m.Keys;
    MappedKept(g, m, m');
  }

  // One call of the interface.
  method Perform(c: Control, call: Call) returns (p: int)
    requires c.Valid() && Legal(c.g, c.st, call)
    modifies c, c.slBitmap, c.blocks
    ensures c.Valid() && Effect(c.g, old(c.st), old(c.mem), call, c.st, c.mem, p)
  {
    hide Inv, Malloc, Memalign, Free, Resize, AdjustRequestSize, Alignment, Kept, Indexes, Holds, Mapped, Resizable;
    hide Copied, ContentsKept;
    p := 0;
    match call
    case MallocCall(size) =>
      p := c.Malloc(size);
      NoneAt(c.g, old(c.st), old(c.mem), c.mem, Released(call));
    case MemalignCall(align, size) =>
      p := c.Memalign(align, size);
      NoneAt(c.g, old(c.st), old(c.mem), c.mem, Released(call));
    case FreeCall(ptr) =>
      c.Free(ptr);
    case ReallocCall(ptr, size) =>
      p := c.Realloc(ptr, size);
  }

  lemma NoneAt(g: Geometry, st: State, m: Mem, m': Mem, but: int)
    requires Inv(g, st) && Kept(st, m, m', -1)
    ensures Kept(st, m, m', but)
  {
    hide Tiled, Filed, Coalesced, Kept;
    KeptExcept(g, st, m, m', but);
  }

  // A moment of a run: the abstract heap and memory.
  datatype Moment = Moment(st: State, mem: Mem)

  // Every block that a run leaves alone keeps its payload.
  ghost predicate RunKept(g: Geometry, st: State, calls: seq<Call>, m: Mem, m': Mem) {
    forall a :: Freeable(g, st, a) && Untouched(a, calls) ==> PayloadKept(m, m', a, st.next[a])
  }

  // The moments between the calls of a run.
  ghost predicate CallTrace(g: Geometry, trace: seq<Moment>, calls: seq<Call>) {
    && |trace| == |calls| + 1
    && forall i :: 0 <= i < |calls| ==> Calls(g, trace[i], calls[i], trace[i + 1])
  }

  ghost predicate Calls(g: Geometry, a: Moment, call: Call, b: Moment) {
    exists p :: Effect(g, a.st, a.mem, call, b.st, b.mem, p)
  }

  // Whatever is live at any moment and left alone from then on keeps its payload.
  ghost predicate KeptFromThenOn(g: Geometry, trace: seq<Moment>, calls: seq<Call>, m: Mem) {
    && |trace| == |calls| + 1
    && forall i :: 0 <= i <= |calls| ==> RunKept(g, trace[i].st, calls[i..], trace[i].mem, m)
  }

  // A run of calls: the state it ends in is the abstract run's, and no payload
  // word of a block has changed since the last call that handed it out or resized
  // it, whether it was live before the run or not.
  method PerformAll(c: Control, calls: seq<Call>) returns (ghost trace: seq<Moment>)
    requires c.Valid() && LegalRun(c.g, c.st, calls)
    modifies c, c.slBitmap, c.blocks
    ensures c.Valid() && c.st == Run(c.g, old(c.st), calls)
    ensures CallTrace(c.g, trace, calls)
    ensures trace[0] == Moment(old(c.st), old(c.mem)) && trace[|calls|] == Moment(c.st, c.mem)
    ensures KeptFromThenOn(c.g, trace, calls, c.mem)
    decreases |calls|
  {
    hide Inv, Step, Legal, Kept, Indexes, Holds, Mapped, PayloadKept, RunKept, Resizes, MovedContents;
    ghost var s0, m0 := c.st, c.mem;
    if calls == [] {
      NothingDone(c.g, s0, calls, m0);
      trace := [Moment(s0, m0)];
      assert calls[0..] == calls;
    } else {
      StepInv(c.g, s0, calls[0]);
      var p := Perform(c, calls[0]);
      ghost var s1, m1 := c.st, c.mem;
      assert Calls(c.g, Moment(s0, m0), calls[0], Moment(s1, m1));
      trace := PerformAll(c, calls[1..]);
      assert calls[1..][0..] == calls[1..];
      StepThenRun(c.g, s0, calls, s1, m0, m1, c.mem);
      CallTraceFrom(c.g, Moment(s0, m0), trace, calls, c.mem);
      trace := [Moment(s0, m0)] + trace;
    }
  }

  lemma CallTraceFrom(g: Geometry, first: Moment, trace: seq<Moment>, calls: seq<Call>, m: Mem)
    requires calls != [] && CallTrace(g, trace, calls[1..]) && KeptFromThenOn(g, trace, calls[1..], m)
    requires Calls(g, first, calls[0], trace[0])
    requires RunKept(g, first.st, calls, first.mem, m)
    ensures CallTrace(g, [first] + trace, calls) && KeptFromThenOn(g, [first] + trace, calls, m)
  {
    hide Calls, RunKept;
    var whole := [first] + trace;
    forall i | 0 <= i < |calls|
      ensures Calls(g, whole[i], calls[i], whole[i + 1])
    {
      if i > 0 { assert calls[i] == calls[1..][i - 1] && whole[i] == trace[i - 1] && whole[i + 1] == trace[i]; }
    }
    forall i | 0 <= i <= |calls|
      ensures RunKept(g, whole[i].st, calls[i..], whole[i].mem, m)
    {
      if i == 0 {
        assert calls[0..] == calls;
      } else {
        assert calls[i..] == calls[1..][i - 1..] && whole[i] == trace[i - 1];
      }
    }
  }

  lemma NothingDone(g: Geometry, st: State, calls: seq<Call>, m: Mem)
    ensures RunKept(g, st, calls, m, m)
  {
  }

  lemma StepThenRun(g: Geometry, s0: State, calls: seq<Call>, s1: State, m0: Mem, m1: Mem, m2: Mem)
    requires Inv(g, s0) && calls != [] && Legal(g, s0, calls[0]) && s1 == Step(g, s0, calls[0]).0
    requires Kept(s0, m0, m1, Released(calls[0])) && RunKept(g, s1, calls[1..], m1, m2)
    ensures RunKept(g, s0, calls, m0, m2)
  {
    hide Inv, Step, Legal;
    forall a | Freeable(g, s0, a) && Untouched(a, calls)
      ensures PayloadKept(m0, m2, a, s0.next[a])
    {
      assert Released(calls[0]) != a;
      assert Untouched(a, calls[1..]) by {
        assert forall i :: 0 <= i < |calls[1..]| ==> calls[1..][i] == calls[i + 1];
      }
      StepKeepsOthers(g, s0, calls[0], a);
      assert PayloadKept(m0, m1, a, s0.next[a]) && PayloadKept(m1, m2, a, s1.next[a]);
    }
  }

  // ---- Runs in which clients write to what they own ----

  // The last value a run writes to an address, or the one it had.
  function LastWritten(actions: seq<Action>, x: int, before: int): int {
    if actions == [] then before
    else if actions[0].Write? && actions[0].address == x then LastWritten(actions[1..], x, actions[0].value)
    else LastWritten(actions[1..], x, before)
  }

  ghost predicate LeavesAlone(a: int, actions: seq<Action>) {
    forall i :: 0 <= i < |actions| && actions[i].Ask? ==> Released(actions[i].call) != a
  }

  // A word of a block that is never given up holds what was last written there.
  ghost predicate Remembers(g: Geometry, st: State, actions: seq<Action>, m: Mem, m': Mem) {
    forall a, x :: Freeable(g, st, a) && LeavesAlone(a, actions) && InPayload(st, a, x) && x in m ==>
      x in m' && m'[x] == LastWritten(actions, x, m[x])
  }

  // The moments between the actions of a run.
  ghost predicate ActionTrace(g: Geometry, trace: seq<Moment>, actions: seq<Action>) {
    && |trace| == |actions| + 1
    && forall i :: 0 <= i < |actions| ==> Acts(g, trace[i], actions[i], trace[i + 1])
  }

  ghost predicate Acts(g: Geometry, a: Moment, action: Action, b: Moment) {
    match action
    case Ask(call) => Calls(g, a, call, b)
    case Write(ptr, address, value) =>
      Inv(g, a.st) && OwnWord(g, a.st, ptr, address) && b == Moment(a.st, a.mem[address := value])
  }

  // Whatever is live at any moment and never given up from then on is remembered.
  ghost predicate RememberedFromThenOn(g: Geometry, trace: seq<Moment>, actions: seq<Action>, m: Mem) {
    && |trace| == |actions| + 1
    && forall i :: 0 <= i <= |actions| ==> Remembers(g, trace[i].st, actions[i..], trace[i].mem, m)
  }

  // Whatever is allocated, freed, moved and written in between, payload memory
  // behaves as memory. What owners know at the end, in blocks handed out in the
  // run as well, taken along when a block is resized, is what memory holds; and
  // from any moment on, words of a block not given up hold what was last written.
  method PerformWithWrites(c: Control, actions: seq<Action>, ghost known: Contents)
    returns (ghost trace: seq<Moment>)
    requires c.Valid() && LegalActions(c.g, c.st, actions) && Backed(c.g, c.st, c.mem, known)
    modifies c, c.slBitmap, c.blocks
    ensures c.Valid() && LegalRun(c.g, old(c.st), CallsIn(actions))
    ensures c.st == Run(c.g, old(c.st), CallsIn(actions))
    ensures Backed(c.g, c.st, c.mem, KnownAfter(c.g, old(c.st), actions, known))
    ensures ActionTrace(c.g, trace, actions)
    ensures trace[0] == Moment(old(c.st), old(c.mem)) && trace[|actions|] == Moment(c.st, c.mem)
    ensures RememberedFromThenOn(c.g, trace, actions, c.mem)
    decreases |actions|
  {
    hide Inv, Step, Legal, Kept, Indexes, Holds, Mapped, Remembers, Multiple8, Known, Backed, Resizes, MovedContents;
    ghost var s0, m0 := c.st, c.mem;
    if actions == [] {
      NothingWritten(c.g, s0, m0);
      trace := [Moment(s0, m0)];
      assert actions[0..] == actions;
    } else {
      assert actions[1..][0..] == actions[1..];
      ghost var known1 := Known(c.g, s0, actions[0], known);
      match actions[0] {
        case Ask(call) =>
          StepInv(c.g, s0, call);
          var p := Perform(c, call);
          ghost var s1, m1 := c.st, c.mem;
          CallBacked(c.g, s0, m0, call, s1, m1, p, known);
          assert Calls(c.g, Moment(s0, m0), call, Moment(s1, m1));
          trace := PerformWithWrites(c, actions[1..], known1);
          AskRemembers(c.g, s0, actions, s1, m0, m1, c.mem);
          assert CallsIn(actions)[0] == call && CallsIn(actions)[1..] == CallsIn(actions[1..]);
        case Write(ptr, address, value) =>
          c.Store(ptr, address, value);
          WriteBacked(c.g, s0, m0, actions[0], known);
          trace := PerformWithWrites(c, actions[1..], known1);
          WriteRemembers(c.g, s0, actions, m0, c.mem);
      }
      ActionTraceFrom(c.g, Moment(s0, m0), trace, actions, c.mem);
      trace := [Moment(s0, m0)] + trace;
    }
  }

  lemma ActionTraceFrom(g: Geometry, first: Moment, trace: seq<Moment>, actions: seq<Action>, m: Mem)
    requires actions != [] && ActionTrace(g, trace, actions[1..]) && RememberedFromThenOn(g, trace, actions[1..], m)
    requires Acts(g, first, actions[0], trace[0])
    requires Remembers(g, first.st, actions, first.mem, m)
    ensures ActionTrace(g, [first] + trace, actions) && RememberedFromThenOn(g, [first] + trace, actions, m)
  {
    hide Acts, Remembers;
    var whole := [first] + trace;
    forall i | 0 <= i < |actions|
      ensures Acts(g, whole[i], actions[i], whole[i + 1])
    {
      if i > 0 { assert actions[i] == actions[1..][i - 1] && whole[i] == trace[i - 1] && whole[i + 1] == trace[i]; }
    }
    forall i | 0 <= i <= |actions|
      ensures Remembers(g, whole[i].st, actions[i..], whole[i].mem, m)
    {
      if i == 0 {
        assert actions[0..] == actions;
      } else {
        assert actions[i..] == actions[1..][i - 1..] && whole[i] == trace[i - 1];
      }
    }
  }

  lemma NothingWritten(g: Geometry, st: State, m: Mem)
    ensures Remembers(g, st, [], m, m)
  {
  }

  lemma RestLeavesAlone(a: int, actions: seq<Action>)
    requires actions != [] && LeavesAlone(a, actions)
    ensures LeavesAlone(a, actions[1..])
  {
    assert forall i :: 0 <= i < |actions[1..]| ==> actions[1..][i] == actions[i + 1];
  }

  lemma AskRemembers(g: Geometry, s0: State, actions: seq<Action>, s1: State, m0: Mem, m1: Mem, m2: Mem)
    requires Inv(g, s0) && actions != [] && actions[0].Ask? && Legal(g, s0, actions[0].call)
    requires s1 == Step(g, s0, actions[0].call).0 && Kept(s0, m0, m1, Released(actions[0].call))
    requires Remembers(g, s1, actions[1..], m1, m2)
    ensures Remembers(g, s0, actions, m0, m2)
  {
    hide Inv, Step, Legal;
    forall a, x | Freeable(g, s0, a) && LeavesAlone(a, actions) && InPayload(s0, a, x) && x in m0
      ensures x in m2 && m2[x] == LastWritten(actions, x, m0[x])
    {
      assert Released(actions[0].call) != a;
      RestLeavesAlone(a, actions);
      StepKeepsOthers(g, s0, actions[0].call, a);
      assert PayloadKept(m0, m1, a, s0.next[a]);
      assert InPayload(s1, a, x);
    }
  }

  lemma WriteRemembers(g: Geometry, st: State, actions: seq<Action>, m0: Mem, m2: Mem)
    requires actions != [] && actions[0].Write?
    requires Remembers(g, st, actions[1..], m0[actions[0].address := actions[0].value], m2)
    ensures Remembers(g, st, actions, m0, m2)
  {
    var m1 := m0[actions[0].address := actions[0].value];
    forall a, x | Freeable(g, st, a) && LeavesAlone(a, actions) && InPayload(st, a, x) && x in m0
      ensures x in m2 && m2[x] == LastWritten(actions, x, m0[x])
    {
      RestLeavesAlone(a, actions);
      assert x in m1;
    }
  }

  // ---- Round trips ----

  // The index says which lists there are, so equal lists mean equal bitmaps and
  // heads.
  ghost predicate SameIndex(c: Control, fl: Word, sl: seq<Word>, heads: seq<int>)
    reads c, c.slBitmap, c.blocks
  {
    c.flBitmap == fl && c.slBitmap[..] == sl && c.blocks[..] == heads
  }

  // tlsf_malloc, then tlsf_free of its answer: blocks, free lists, both bitmap
  // levels and all list heads are as before, and so is every live payload.
  method MallocThenFree(c: Control, size: nat)
    requires c.Valid() && size < SIZE_T_RANGE
    modifies c, c.slBitmap, c.blocks
    ensures c.Valid() && c.st == old(c.st)
    ensures SameIndex(c, old(c.flBitmap), old(c.slBitmap[..]), old(c.blocks[..]))
    ensures Kept(old(c.st), old(c.mem), c.mem, -1)
  {
    hide Inv, Malloc, Free, Kept, Indexes, Holds, Mapped, Freeable;
    ghost var s0, m0, fl, sl, heads := c.st, c.mem, c.flBitmap, c.slBitmap[..], c.blocks[..];
    MallocLedger(c.g, s0, size);
    if Malloc(c.g, s0, size).1 != 0 { FreeAfterMalloc(c.g, s0, size); }
    var p := c.Malloc(size);
    ghost var s1, m1 := c.st, c.mem;
    c.Free(p);
    IndexIsUnique(fl, sl, heads, c.flBitmap, c.slBitmap[..], c.blocks[..], c.g.nul, s0.lists);
    BackAgain(c.g, s0, s1, m0, m1, c.mem, p);
  }

  method MemalignThenFree(c: Control, align: nat, size: nat)
    requires c.Valid() && Alignment(align) && size < SIZE_T_RANGE
    modifies c, c.slBitmap, c.blocks
    ensures c.Valid() && c.st == old(c.st)
    ensures SameIndex(c, old(c.flBitmap), old(c.slBitmap[..]), old(c.blocks[..]))
    ensures Kept(old(c.st), old(c.mem), c.mem, -1)
  {
    hide Inv, Memalign, Free, Kept, Indexes, Holds, Mapped, Freeable, Alignment;
    ghost var s0, m0, fl, sl, heads := c.st, c.mem, c.flBitmap, c.slBitmap[..], c.blocks[..];
    MemalignLedger(c.g, s0, align, size);
    if Memalign(c.g, s0, align, size).1 != 0 { FreeAfterMemalign(c.g, s0, align, size); }
    var p := c.Memalign(align, size);
    ghost var s1, m1 := c.st, c.mem;
    c.Free(p);
    IndexIsUnique(fl, sl, heads, c.flBitmap, c.slBitmap[..], c.blocks[..], c.g.nul, s0.lists);
    BackAgain(c.g, s0, s1, m0, m1, c.mem, p);
  }

  // Allocating and freeing touched no payload that was live before.
  lemma BackAgain(g: Geometry, s0: State, s1: State, m0: Mem, m1: Mem, m2: Mem, p: int)
    requires Inv(g, s0) && Kept(s0, m0, m1, -1) && Kept(s1, m1, m2, p - 16)
    requires p == 0 ==> s1 == s0
    requires p != 0 ==> Joined(Live(s0), Live(s1), p - 16)
    ensures Kept(s0, m0, m2, -1)
  {
    hide Tiled, Filed, Coalesced, Multiple8;
    forall b | b in s0.next && b !in s0.free
      ensures PayloadKept(m0, m2, b, s0.next[b])
    {
      Positive(g, s0, b);
      assert PayloadKept(m0, m1, b, s0.next[b]);
      assert b in Live(s0) && b != p - 16;
      assert b in Live(s1) && Live(s1)[b] == s0.next[b];
      assert PayloadKept(m1, m2, b, s1.next[b]);
    }
  }

  lemma Positive(g: Geometry, st: State, a: int)
    requires Inv(g, st) && a in st.next
    ensures a > 0
  {
    hide Filed, Coalesced;
  }
}
