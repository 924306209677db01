// Whole runs of allocator calls on the abstract heap.
module HeapRuns {
  import opened Param
  import opened SizeClass
  import opened Heap
  import opened HeapOps
  import opened HeapCalls
  import opened HeapAlign
  import opened HeapMemalign
  import opened HeapRealloc
  import opened HeapWalk

  datatype Call =
    | MallocCall(size: nat)
    | MemalignCall(align: nat, size: nat)
    | FreeCall(ptr: int)
    | ReallocCall(ptr: int, size: nat)

  // What a caller must observe: pointers are NULL or its own.
  ghost predicate Legal(g: Geometry, st: State, call: Call) {
    match call
    case MallocCall(size) => size < SIZE_T_RANGE
    case MemalignCall(align, size) => size < SIZE_T_RANGE && Alignment(align)
    case FreeCall(ptr) => ptr != 0 ==> Freeable(g, st, ptr - 16)
    case ReallocCall(ptr, size) =>
      && size < SIZE_T_RANGE && (ptr != 0 ==> Freeable(g, st, ptr - 16))
      && (ptr != 0 && size != 0 ==> Resizable(st, ptr - 16, size))
  }

  // The state after a call, and the pointer it returns (0 for NULL).
  ghost function Step(g: Geometry, st: State, call: Call): (State, int)
    requires Inv(g, st) && Legal(g, st, call)
  {
    hide Inv, AdjustRequestSize, Alignment, Freeable;
    match call
    case MallocCall(size) => Malloc(g, st, size)
    case MemalignCall(align, size) => Memalign(g, st, align, size)
    case FreeCall(ptr) => if ptr == 0 then (st, 0) else (Free(g, st, ptr - 16), 0)
    case ReallocCall(ptr, size) => Realloc(g, st, ptr, size)
  }

  lemma StepInv(g: Geometry, st: State, call: Call)
    requires Inv(g, st) && Legal(g, st, call)
    ensures Inv(g, Step(g, st, call).0)
  {
    hide Inv, Malloc, Memalign, Free, Resize, AdjustRequestSize, Alignment, Freeable;
    match call
    case MallocCall(size) => MallocInv(g, st, size);
    case MemalignCall(align, size) => MemalignInv(g, st, align, size);
    case FreeCall(ptr) => if ptr != 0 { FreeInv(g, st, ptr - 16); }
    case ReallocCall(ptr, size) =>
      if ptr == 0 {
        MallocInv(g, st, size);
      } else if size == 0 {
        FreeInv(g, st, ptr - 16);
      } else {
        ResizeInv(g, st, ptr - 16, size);
      }
  }

  // ---- The caller's ledger ----

  // Block a joins the ledger, new to it; it has s to s + 24 payload bytes.
  ghost predicate Joined(live: map<int, int>, live': map<int, int>, a: int) {
    a !in live && a in live' && live' == live[a := live'[a]]
  }

  ghost predicate Granted(live: map<int, int>, live': map<int, int>, a: int, s: int) {
    Joined(live, live', a) && s <= live'[a] - a - BLOCK_HEADER_OVERHEAD <= s + 24
  }

  // How a call and the pointer it returned change what the caller owns.
  ghost predicate Ledger(live: map<int, int>, call: Call, p: int, live': map<int, int>) {
    match call
    case MallocCall(size) =>
      if p == 0 then live' == live else Granted(live, live', p - 16, AdjustRequestSize(size, ALIGN_SIZE))
    case MemalignCall(align, size) =>
      if p == 0 then live' == live
      else
        && Joined(live, live', p - 16)
        && (0 < align < TOP_ALIGNMENT ==>
              p % align == 0 && Granted(live, live', p - 16, AdjustRequestSize(size, ALIGN_SIZE)))
    case FreeCall(ptr) =>
      p == 0 && live' == if ptr == 0 then live else live - {ptr - 16}
    case ReallocCall(ptr, size) =>
      if ptr != 0 && size == 0 then p == 0 && live' == live - {ptr - 16}
      else if p == 0 then live' == live
      else Granted(if ptr == 0 then live else live - {ptr - 16}, live', p - 16, AdjustRequestSize(size, ALIGN_SIZE))
  }

  lemma GrantedBy(st: State, t: State, a: int, s: int)
    requires HandedOut(st, t, a, s) && a !in Live(st)
    ensures Granted(Live(st), Live(t), a, s)
  {
  }

  lemma MallocLedger(g: Geometry, st: State, size: nat)
    requires Inv(g, st)
    ensures var (t, p) := Malloc(g, st, size);
      if p == 0 then t == st else Granted(Live(st), Live(t), p - 16, AdjustRequestSize(size, ALIGN_SIZE))
  {
    hide Inv, Malloc, LiveIn, AdjustRequestSize, HandedOut, Granted;
    MallocInv(g, st, size);
    var (t, p) := Malloc(g, st, size);
    if p != 0 {
      MallocHandsOut(g, st, size);
      FreeIsNotLive(st, p - 16);
      GrantedBy(st, t, p - 16, AdjustRequestSize(size, ALIGN_SIZE));
    }
  }

  lemma FreeIsNotLive(st: State, a: int)
    requires a in st.free || a !in st.next
    ensures a !in Live(st)
  {
  }

  lemma MemalignLedger(g: Geometry, st: State, align: nat, size: nat)
    requires Inv(g, st) && Alignment(align)
    ensures var (t, p) := Memalign(g, st, align, size);
      if p == 0 then t == st
      else
        && Joined(Live(st), Live(t), p - 16)
        && (0 < align < TOP_ALIGNMENT ==>
              p % align == 0 && Granted(Live(st), Live(t), p - 16, AdjustRequestSize(size, ALIGN_SIZE)))
  {
    hide Inv, Memalign, LiveIn, AdjustRequestSize, HandedOut, Granted, Alignment;
    MemalignInv(g, st, align, size);
    var (t, p) := Memalign(g, st, align, size);
    if p != 0 {
      MemalignJoins(g, st, align, size);
      if align < TOP_ALIGNMENT {
        MemalignHandsOut(g, st, align, size);
        GrantedBy(st, t, p - 16, AdjustRequestSize(size, ALIGN_SIZE));
      }
    }
  }

  lemma ResizeLedger(g: Geometry, st: State, a: int, size: nat)
    requires Inv(g, st) && Freeable(g, st, a) && Resizable(st, a, size)
    ensures var (t, p) := Resize(g, st, a, size);
      if p == 0 then t == st else Granted(Live(st) - {a}, Live(t), p - 16, AdjustRequestSize(size, ALIGN_SIZE))
  {
    hide Inv, LiveIn, AdjustRequestSize, Reshape, Malloc, Free;
    ResizeInv(g, st, a, size);
    var (t, p) := Resize(g, st, a, size);
    if p != 0 {
      ResizeLive(g, st, a, size);
      ResizeIsNew(g, st, a, size);
    }
  }

  lemma ResizeIsNew(g: Geometry, st: State, a: int, size: nat)
    requires Inv(g, st) && Freeable(g, st, a) && Resizable(st, a, size)
    requires Resize(g, st, a, size).1 != 0
    ensures Resize(g, st, a, size).1 - 16 !in Live(st) - {a}
  {
    hide Tiled, Filed, Coalesced, Malloc, Free, Reshape, AdjustRequestSize, LiveIn, HandedOut;
    NextIsBlock(g, st, a);
    hide Inv, Physical;
    if !InPlace(st, a, AdjustRequestSize(size, ALIGN_SIZE)) {
      MallocHandsOut(g, st, size);
      FreeIsNotLive(st, Malloc(g, st, size).1 - 16);
    }
  }

  // The whole interface against the ledger: what a caller owns changes by the
  // block named in the call and the block returned, and nothing else.
  lemma StepLedger(g: Geometry, st: State, call: Call)
    requires Inv(g, st) && Legal(g, st, call)
    ensures Ledger(Live(st), call, Step(g, st, call).1, Live(Step(g, st, call).0))
  {
    hide Inv, Malloc, Memalign, Free, Resize, AdjustRequestSize, Alignment, Freeable, LiveIn, Granted;
    match call
    case MallocCall(size) => MallocLedger(g, st, size);
    case MemalignCall(align, size) => MemalignLedger(g, st, align, size);
    case FreeCall(ptr) => if ptr != 0 { FreeLive(g, st, ptr - 16); }
    case ReallocCall(ptr, size) =>
      if ptr == 0 {
        MallocLedger(g, st, size);
      } else if size == 0 {
        FreeLive(g, st, ptr - 16);
      } else {
        ResizeLedger(g, st, ptr - 16, size);
      }
  }

  // When a call returns NULL: on requests that adjust to no size, on those that no
  // free block reaches, and always when it frees.
  ghost predicate Refused(g: Geometry, st: State, call: Call)
    requires Inv(g, st) && Legal(g, st, call)
  {
    hide Inv, AdjustRequestSize, Freeable, Alignment, NoneReaches, Resizable;
    match call
    case MallocCall(size) => NotServed(st, AdjustRequestSize(size, ALIGN_SIZE))
    case MemalignCall(align, size) => align > 0 ==> NotServed(st, AlignedRequest(align, size))
    case FreeCall(_) => true
    case ReallocCall(ptr, size) =>
      if ptr == 0 then NotServed(st, AdjustRequestSize(size, ALIGN_SIZE))
      else size == 0 || NotResized(g, st, ptr - 16, AdjustRequestSize(size, ALIGN_SIZE))
  }

  ghost predicate NotResized(g: Geometry, st: State, a: int, s: nat)
    requires Inv(g, st) && Freeable(g, st, a)
  {
    hide Filed, Coalesced, Outgrown;
    NextIsBlock(g, st, a);
    Outgrown(st, a, s) && NoneReaches(st, s)
  }

  ghost predicate NotServed(st: State, s: nat) { s == 0 || NoneReaches(st, s) }

  lemma StepRefusal(g: Geometry, st: State, call: Call)
    requires Inv(g, st) && Legal(g, st, call)
    ensures Step(g, st, call).1 == 0 <==> Refused(g, st, call)
  {
    hide Inv, Malloc, Memalign, Free, Resize, AdjustRequestSize, AlignedRequest, NoneReaches, Outgrown, Freeable;
    match call
    case MallocCall(size) => MallocRefusal(g, st, size);
    case MemalignCall(align, size) => MemalignRefusal(g, st, align, size);
    case FreeCall(ptr) =>
    case ReallocCall(ptr, size) =>
      if ptr == 0 { MallocRefusal(g, st, size); } else if size != 0 { ResizeRefusal(g, st, ptr - 16, size); }
  }

  // ---- Runs ----

  ghost predicate LegalRun(g: Geometry, st: State, calls: seq<Call>)
    requires Inv(g, st)
    decreases |calls|
  {
    calls == [] ||
    (Legal(g, st, calls[0]) && (StepInv(g, st, calls[0]); LegalRun(g, Step(g, st, calls[0]).0, calls[1..])))
  }

  ghost function Run(g: Geometry, st: State, calls: seq<Call>): State
    requires Inv(g, st) && LegalRun(g, st, calls)
    decreases |calls|
  {
    if calls == [] then st else StepInv(g, st, calls[0]); Run(g, Step(g, st, calls[0]).0, calls[1..])
  }

  // Every reachable state satisfies the invariant.
  lemma {:induction false} RunInv(g: Geometry, st: State, calls: seq<Call>)
    requires Inv(g, st) && LegalRun(g, st, calls)
    ensures Inv(g, Run(g, st, calls))
    decreases |calls|
  {
    hide Inv, Step, Legal;
    if calls != [] {
      StepInv(g, st, calls[0]);
      RunInv(g, Step(g, st, calls[0]).0, calls[1..]);
    }
  }

  // The block a call gives up, if any.
  function Released(call: Call): int {
    match call
    case FreeCall(ptr) => ptr - 16
    case ReallocCall(ptr, _) => ptr - 16
    case _ => -16
  }

  ghost predicate Untouched(a: int, calls: seq<Call>) {
    forall i :: 0 <= i < |calls| ==> Released(calls[i]) != a
  }

  lemma StepKeepsOthers(g: Geometry, st: State, call: Call, a: int)
    requires Inv(g, st) && Legal(g, st, call) && Freeable(g, st, a) && Released(call) != a
    ensures Freeable(g, Step(g, st, call).0, a) && Step(g, st, call).0.next[a] == st.next[a]
  {
    hide Inv, Step, Legal;
    StepLedger(g, st, call);
    assert a in Live(st);
    assert a in Live(Step(g, st, call).0) && Live(Step(g, st, call).0)[a] == st.next[a];
  }

  // A block that no call in the run frees or reallocates is live, where it was
  // and as long as it was, at the end.
  lemma {:induction false} RunKeepsOthers(g: Geometry, st: State, calls: seq<Call>, a: int)
    requires Inv(g, st) && LegalRun(g, st, calls) && Freeable(g, st, a) && Untouched(a, calls)
    ensures Freeable(g, Run(g, st, calls), a) && Run(g, st, calls).next[a] == st.next[a]
    decreases |calls|
  {
    hide Inv, Step, Legal, Freeable;
    if calls != [] {
      StepInv(g, st, calls[0]);
      StepKeepsOthers(g, st, calls[0], a);
      assert Untouched(a, calls[1..]) by {
        assert forall i :: 0 <= i < |calls[1..]| ==> calls[1..][i] == calls[i + 1];
      }
      RunKeepsOthers(g, Step(g, st, calls[0]).0, calls[1..], a);
    }
  }

  // A run that ends with nothing allocated ends in the initial state, whatever
  // it did: same single block, same list.
  lemma RunBackToFresh(g: Geometry, calls: seq<Call>)
    requires ValidGeometry(g) && (FreshIsInv(g); LegalRun(g, Fresh(g), calls))
    requires (FreshIsInv(g); NothingLive(g, Run(g, Fresh(g), calls)))
    ensures (FreshIsInv(g); Run(g, Fresh(g), calls) == Fresh(g))
  {
    FreshIsInv(g);
    hide Inv, Step, Legal;
    RunInv(g, Fresh(g), calls);
    NothingLiveIsFresh(g, Run(g, Fresh(g), calls));
  }

  // In every state a run from the fresh pool reaches: the blocks account for
  // every byte of the pool, and live payloads are aligned, inside it and apart.
  lemma ReachableIsSafe(g: Geometry, calls: seq<Call>, a: int, b: int, x: int)
    requires ValidGeometry(g) && (FreshIsInv(g); LegalRun(g, Fresh(g), calls))
    ensures (FreshIsInv(g);
             var st := Run(g, Fresh(g), calls);
             && Inv(g, st) && AccountsForPool(g, st)
             && (Freeable(g, st, a) && Freeable(g, st, b) && InPayload(st, a, x) ==>
                   Multiple8(a + 16) && g.first + 16 <= x < g.last + 8 && (InPayload(st, b, x) ==> a == b)))
  {
    hide Fresh, Run, LegalRun, Filed, Coalesced, AccountsForPool, Freeable, InPayload, Multiple8;
    FreshIsInv(g);
    RunInv(g, Fresh(g), calls);
    var st := Run(g, Fresh(g), calls);
    PoolIsConserved(g, st);
    if Freeable(g, st, a) && Freeable(g, st, b) && InPayload(st, a, x) { PayloadsAreSafe(g, st, a, b, x); }
  }

  // The one realloc that Legal excludes is within reach of a run: a block of 32
  // bytes resized beyond block_size_max leaves a state that is no heap.
  lemma OversizedReallocReachable(g: Geometry, size: nat)
    requires ValidGeometry(g) && g.last - g.first - 8 >= 32
    requires BLOCK_SIZE_MAX - 8 < size <= SIZE_T_RANGE - 8
    ensures (FreshIsInv(g); LegalRun(g, Fresh(g), [MallocCall(32)]))
    ensures (FreshIsInv(g);
             var (t, p) := Step(g, Fresh(g), MallocCall(32));
             && p != 0 && Inv(g, t) && Freeable(g, t, p - 16)
             && Resize(g, t, p - 16, size).1 == p && !Inv(g, Resize(g, t, p - 16, size).0))
  {
    hide Inv, Fresh, Malloc, Resize;
    FreshIsInv(g);
    AdjustedRequest(32);
    AdjustedRequest(size);
    FreshPoolServes(g, 32);
    MallocInv(g, Fresh(g), 32);
    var (t, p) := Malloc(g, Fresh(g), 32);
    MallocHandsOut(g, Fresh(g), 32);
    FreshFree(g);
    ResizeKeepsInvIff(g, t, p - 16, size);
    assert [MallocCall(32)][1..] == [];
  }

  // memalign answers even the alignment 2^63 there, so that what happens then
  // does happen.
  lemma TopAlignmentReachable(g: Geometry, size: nat)
    requires ValidGeometry(g) && 1 <= size <= BLOCK_SIZE_MAX - 8
    ensures (FreshIsInv(g); TopIsAlignment(); Memalign(g, Fresh(g), TOP_ALIGNMENT, size).1 != 0)
  {
    hide Inv, Fresh, Memalign, AdjustRequestSize;
    FreshIsInv(g);
    TopIsAlignment();
    AdjustedRequest(size);
    WideRequest(TOP_ALIGNMENT, size);
    WrapAt63(AdjustRequestSize(size, ALIGN_SIZE));
    FreshFree(g);
    MemalignRefusal(g, Fresh(g), TOP_ALIGNMENT, size);
    assert Reaches(Size(Fresh(g).next, g.first), BLOCK_SIZE_MIN);
  }

  // ---- Freeing everything, in any order ----

  function Frees(order: seq<int>): (calls: seq<Call>)
    ensures |calls| == |order| && forall i :: 0 <= i < |order| ==> calls[i] == FreeCall(order[i] + 16)
  {
    seq(|order|, i requires 0 <= i < |order| => FreeCall(order[i] + 16))
  }

  // order lists each block callers hold once.
  ghost predicate ListsLive(g: Geometry, st: State, order: seq<int>) {
    && (forall a :: a in order <==> Freeable(g, st, a))
    && (forall i, j :: 0 <= i < j < |order| ==> order[i] != order[j])
  }

  lemma FreeShrinksLive(g: Geometry, st: State, order: seq<int>)
    requires Inv(g, st) && order != [] && ListsLive(g, st, order)
    ensures Freeable(g, st, order[0]) && order[0] > 0 && Inv(g, Free(g, st, order[0]))
    ensures ListsLive(g, Free(g, st, order[0]), order[1..])
  {
    hide Tiled, Filed, Coalesced, Free;
    var a := order[0];
    assert a in order;
    FreeInv(g, st, a);
    FreeLive(g, st, a);
    AboveZero(g, st, a);
    hide Inv;
    var t := Free(g, st, a);
    forall b
      ensures b in order[1..] <==> Freeable(g, t, b)
    {
      assert b in order[1..] <==> b in order && b != a;
      assert Freeable(g, t, b) <==> b in Live(t) && b != g.last;
      assert Freeable(g, st, b) <==> b in Live(st) && b != g.last;
    }
  }

  lemma {:induction false} FreeAll(g: Geometry, st: State, order: seq<int>)
    requires Inv(g, st) && ListsLive(g, st, order)
    ensures LegalRun(g, st, Frees(order))
    ensures g.first < g.last && Run(g, st, Frees(order)) == Fresh(g)
    decreases |order|
  {
    hide Free, Freeable, Tiled, Filed, Coalesced;
    assert g.first < g.last;
    hide Inv;
    if order == [] {
      NothingLiveIsFresh(g, st) by {
        forall a ensures !Freeable(g, st, a) { assert a !in order; }
      }
    } else {
      FreeShrinksLive(g, st, order);
      var t := Free(g, st, order[0]);
      assert Step(g, st, Frees(order)[0]) == (t, 0);
      assert Frees(order)[1..] == Frees(order[1..]);
      FreeAll(g, t, order[1..]);
    }
  }
}
