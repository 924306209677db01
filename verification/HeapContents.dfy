// What owners can count on finding in their blocks, byte by byte, over runs in
// which they also write to them.
module HeapContents {
  import opened Param
  import opened SizeClass
  import opened Heap
  import opened HeapOps
  import opened HeapCalls
  import opened HeapAlign
  import opened HeapRealloc
  import opened HeapRuns
  import opened HeapWalk
  import opened HeapMemory
  import opened HeapCommit
  import opened Bytes

  // Call the allocator, or write a word of a payload.
  datatype Action = Ask(call: Call) | Write(ptr: int, address: int, value: int)

  ghost predicate OwnWord(g: Geometry, st: State, ptr: int, address: int) {
    Freeable(g, st, ptr - 16) && ptr <= address < st.next[ptr - 16] + 8 && Multiple8(address)
  }

  ghost predicate LegalAction(g: Geometry, st: State, action: Action) {
    match action
    case Ask(call) => Legal(g, st, call)
    case Write(ptr, address, _) => OwnWord(g, st, ptr, address)
  }

  ghost function Next(g: Geometry, st: State, action: Action): State
    requires Inv(g, st) && LegalAction(g, st, action)
  {
    if action.Ask? then Step(g, st, action.call).0 else st
  }

  lemma NextInv(g: Geometry, st: State, action: Action)
    requires Inv(g, st) && LegalAction(g, st, action)
    ensures Inv(g, Next(g, st, action))
  {
    hide Inv, Step, Legal;
    if action.Ask? { StepInv(g, st, action.call); }
  }

  // ---- What owners know ----

  // The bytes that some owner has put where they are, by address.
  type Contents = map<int, int>

  predicate Within(y: int, lo: int, hi: int) { lo <= y < hi }

  ghost function Forget(known: Contents, lo: int, hi: int): Contents {
    map y | y in known && !Within(y, lo, hi) :: known[y]
  }

  // The first n bytes at from, found at to.
  ghost function Carried(known: Contents, from: int, to: int, n: int): Contents {
    var end := to + n;
    map y | to <= y < end && Within(y, to, end) && y - to + from in known :: known[y - to + from]
  }

  function Stored(address: int, value: int): Contents {
    var end := address + 8;
    map y | address <= y < end && Within(y, address, end) :: ByteOf(value, y - address)
  }

  // A write is known from then on. Giving a block up forgets what was in it, and a
  // successful resizing takes the kept prefix along. Nothing is known of a block
  // just handed out, and no other action changes what is known.
  ghost function Known(g: Geometry, st: State, action: Action, known: Contents): Contents
    requires Inv(g, st) && LegalAction(g, st, action)
  {
    hide Inv, Resizable, Alignment;
    match action
    case Write(_, address, value) => known + Stored(address, value)
    case Ask(call) =>
      match call
      case FreeCall(ptr) => if ptr == 0 then known else Forget(known, ptr, st.next[ptr - 16] + 8)
      case ReallocCall(ptr, size) =>
        if ptr == 0 then known
        else if size == 0 then Forget(known, ptr, st.next[ptr - 16] + 8)
        else KnownResized(g, st, ptr, size, known)
      case _ => known
  }

  ghost function KnownResized(g: Geometry, st: State, ptr: int, size: nat, known: Contents): Contents
    requires Inv(g, st) && Freeable(g, st, ptr - 16)
  {
    var (t, p) := Resize(g, st, ptr - 16, size);
    if p == 0 then known
    else
      Forget(known, ptr, st.next[ptr - 16] + 8)
      + Carried(known, ptr, p, if p - 16 in t.next then ContentsKept(st, ptr - 16, t, p - 16, size) else 0)
  }

  // The byte belongs to a live block.
  ghost predicate Held(g: Geometry, st: State, y: int) {
    exists a :: Freeable(g, st, a) && InPayload(st, a, y)
  }

  // Memory has every known byte, and each is in a live block.
  ghost predicate Backed(g: Geometry, st: State, m: Mem, known: Contents) {
    forall y :: y in known ==> Held(g, st, y) && HoldsByte(m, y, known[y])
  }

  // ---- One call ----

  predicate Resizes(call: Call) {
    call.ReallocCall? && call.ptr != 0 && call.size != 0
  }

  // What a call is known to leave: the abstract result, all payloads but that of
  // the block named, and of that one, when resized, the prefix.
  ghost predicate Effect(g: Geometry, s0: State, m0: Mem, call: Call, s1: State, m1: Mem, p: int) {
    && Inv(g, s0) && Legal(g, s0, call) && (s1, p) == Step(g, s0, call)
    && Kept(s0, m0, m1, Released(call))
    && (Resizes(call) ==>
          if p == 0 then s1 == s0 && m1 == m0 else MovedContents(s0, m0, call.ptr, s1, m1, p, call.size))
  }

  ghost predicate MovedContents(s0: State, m0: Mem, ptr: int, s1: State, m1: Mem, p: int, size: nat) {
    && ptr - 16 in s0.next && p - 16 in s1.next
    && Copied(m0, ptr, m1, p, ContentsKept(s0, ptr - 16, s1, p - 16, size))
  }

  // A known byte of a block the call does not name stays.
  lemma OtherByteStays(g: Geometry, s0: State, m0: Mem, call: Call, s1: State, m1: Mem, p: int, y: int, v: int, a: int)
    requires Effect(g, s0, m0, call, s1, m1, p)
    requires Freeable(g, s0, a) && InPayload(s0, a, y) && a != Released(call) && HoldsByte(m0, y, v)
    ensures Held(g, s1, y) && HoldsByte(m1, y, v)
  {
    hide Inv, Step, Legal, HoldsByte, MovedContents, Multiple8;
    StepKeepsOthers(g, s0, call, a);
    PayloadAligned(g, s0, a);
    assert PayloadKept(m0, m1, a, s0.next[a]);
    KeptByte(m0, m1, a, s0.next[a], y, v);
    assert InPayload(s1, a, y);
  }

  lemma PayloadAligned(g: Geometry, st: State, a: int)
    requires Inv(g, st) && Freeable(g, st, a)
    ensures Multiple8(a + 16) && a > 0 && a + 16 <= st.next[a] && Multiple8(st.next[a] + 8)
  {
    hide Filed, Coalesced;
    assert Multiple8(a) && st.next[a] in st.next && Multiple8(st.next[a]);
  }

  // A byte of the kept prefix is found at the new place.
  lemma PrefixByteMoves(g: Geometry, s0: State, m0: Mem, call: Call, s1: State, m1: Mem, p: int, i: int, v: int)
    requires Effect(g, s0, m0, call, s1, m1, p) && Resizes(call) && p != 0
    requires p - 16 in s1.next && call.ptr - 16 in s0.next
    requires 0 <= i < ContentsKept(s0, call.ptr - 16, s1, p - 16, call.size)
    requires HoldsByte(m0, call.ptr + i, v)
    ensures Held(g, s1, p + i) && HoldsByte(m1, p + i, v)
  {
    hide HoldsByte, Tiled, Filed, Coalesced, Resize, Copied, ContentsKept, Multiple8, AdjustRequestSize;
    var a := call.ptr - 16;
    ContentsFit(g, s0, a, call.size);
    ResizedFreeable(g, s0, a, call.size);
    ResizeInv(g, s0, a, call.size);
    PayloadAligned(g, s0, a);
    PayloadAligned(g, s1, p - 16);
    CopiedByte(m0, call.ptr, m1, p, ContentsKept(s0, a, s1, p - 16, call.size), i, v);
    assert InPayload(s1, p - 16, p + i);
  }

  lemma ResizedFreeable(g: Geometry, st: State, a: int, size: nat)
    requires Inv(g, st) && Freeable(g, st, a) && Resizable(st, a, size) && Resize(g, st, a, size).1 != 0
    ensures var (t, p) := Resize(g, st, a, size); Freeable(g, t, p - 16)
  {
    hide Tiled, Filed, Coalesced, Resize, AdjustRequestSize;
    ResizeLedger(g, st, a, size);
    LastIsLive(g, st);
  }

  lemma LastIsLive(g: Geometry, st: State)
    requires Physical(g, st)
    ensures g.last in Live(st)
  {
  }

  // Whatever the call, what is known afterwards is in memory.
  lemma CallBacked(g: Geometry, s0: State, m0: Mem, call: Call, s1: State, m1: Mem, p: int, known: Contents)
    requires Effect(g, s0, m0, call, s1, m1, p) && Backed(g, s0, m0, known)
    ensures Backed(g, s1, m1, Known(g, s0, Ask(call), known))
  {
    hide Inv, Step, Kept, MovedContents, Known, HoldsByte, Held, Resize, Legal;
    var after := Known(g, s0, Ask(call), known);
    forall y | y in after
      ensures Held(g, s1, y) && HoldsByte(m1, y, after[y])
    {
      ByteBacked(g, s0, m0, call, s1, m1, p, known, y);
    }
  }

  lemma ByteBacked(g: Geometry, s0: State, m0: Mem, call: Call, s1: State, m1: Mem, p: int, known: Contents, y: int)
    requires Effect(g, s0, m0, call, s1, m1, p) && Backed(g, s0, m0, known)
    requires y in Known(g, s0, Ask(call), known)
    ensures Held(g, s1, y) && HoldsByte(m1, y, Known(g, s0, Ask(call), known)[y])
  {
    hide Inv, HoldsByte, Resize, ContentsKept, MovedContents, Kept, Malloc, Free, Resizable;
    if Resizes(call) {
      if p == 0 {
        assert Known(g, s0, Ask(call), known) == known;
      } else {
        ResizedByteBacked(g, s0, m0, call, s1, m1, p, known, y);
      }
    } else {
      assert Known(g, s0, Ask(call), known)[y] == known[y];
      var a :| Freeable(g, s0, a) && InPayload(s0, a, y);
      PayloadAligned(g, s0, a);
      OtherByteStays(g, s0, m0, call, s1, m1, p, y, known[y], a);
    }
  }

  lemma ResizedByteBacked(g: Geometry, s0: State, m0: Mem, call: Call, s1: State, m1: Mem, p: int, known: Contents,
                          y: int)
    requires Effect(g, s0, m0, call, s1, m1, p) && Backed(g, s0, m0, known) && Resizes(call) && p != 0
    requires y in Known(g, s0, Ask(call), known)
    ensures Held(g, s1, y) && HoldsByte(m1, y, Known(g, s0, Ask(call), known)[y])
  {
    hide Inv, HoldsByte, Resize, ContentsKept, Kept, Resizable, Copied;
    var ptr := call.ptr;
    var n := ContentsKept(s0, ptr - 16, s1, p - 16, call.size);
    if p <= y < p + n && y - p + ptr in known {
      assert Known(g, s0, Ask(call), known)[y] == known[y - p + ptr];
      PrefixByteMoves(g, s0, m0, call, s1, m1, p, y - p, known[y - p + ptr]);
    } else {
      assert y in known && Known(g, s0, Ask(call), known)[y] == known[y];
      var a :| Freeable(g, s0, a) && InPayload(s0, a, y);
      OtherByteStays(g, s0, m0, call, s1, m1, p, y, known[y], a);
    }
  }

  lemma WriteBacked(g: Geometry, st: State, m: Mem, action: Action, known: Contents)
    requires Inv(g, st) && action.Write? && LegalAction(g, st, action) && Backed(g, st, m, known)
    ensures Backed(g, st, m[action.address := action.value], Known(g, st, action, known))
  {
    hide Inv, HoldsByte, ByteOf, Multiple8;
    var after := Known(g, st, action, known);
    var a := action.ptr - 16;
    PayloadAligned(g, st, a);
    WordEnds(action.address, st.next[a] + 8);
    forall y | y in after
      ensures Held(g, st, y) && HoldsByte(m[action.address := action.value], y, after[y])
    {
      if action.address <= y < action.address + 8 {
        assert InPayload(st, a, y);
        StoredByte(m, action.address, action.value, y, 0);
      } else {
        StoredByte(m, action.address, action.value, y, known[y]);
      }
    }
  }

  lemma WordEnds(x: int, end: int)
    requires Multiple8(x) && Multiple8(end) && x < end
    ensures x + 8 <= end
  {
  }

  // ---- What is known afterwards ----

  // A write is known, and changes nothing else of what is known.
  lemma KnownByWriting(g: Geometry, st: State, action: Action, known: Contents, y: int)
    requires Inv(g, st) && LegalAction(g, st, action) && action.Write?
    ensures var after := Known(g, st, action, known);
      if action.address <= y < action.address + 8 then Has(after, y, ByteOf(action.value, y - action.address))
      else forall v :: Has(after, y, v) <==> Has(known, y, v)
  {
    hide Inv, ByteOf;
  }

  // A call does not make anyone forget what is in a block that it does not name.
  lemma KnownStays(g: Geometry, st: State, call: Call, known: Contents, a: int, y: int)
    requires Inv(g, st) && Legal(g, st, call) && Freeable(g, st, a) && Released(call) != a
    requires InPayload(st, a, y) && y in known
    ensures Has(Known(g, st, Ask(call), known), y, known[y])
  {
    hide Tiled, Filed, Coalesced, Resize, ContentsKept, Resizable, Malloc, Free;
    if Legal(g, st, call) && Resizes(call) {
      OtherPayload(g, st, call.ptr - 16, a, y);
      if Resize(g, st, call.ptr - 16, call.size).1 != 0 { NotCarried(g, st, call, a, y); }
    } else if call.FreeCall? || call.ReallocCall? {
      if call.ptr != 0 { OtherPayload(g, st, call.ptr - 16, a, y); }
    }
  }

  lemma OtherPayload(g: Geometry, st: State, b: int, a: int, y: int)
    requires Inv(g, st) && Freeable(g, st, a) && Freeable(g, st, b) && a != b && InPayload(st, a, y)
    ensures !(b + 16 <= y < st.next[b] + 8)
  {
    PayloadsAreSafe(g, st, a, b, y);
  }

  // The byte is not in the prefix that a resized block keeps.
  ghost predicate PastPrefix(st: State, call: Call, t: State, p: int, y: int)
    requires Resizes(call)
  {
    && call.ptr - 16 in st.next && p - 16 in t.next
    && !(p <= y < p + ContentsKept(st, call.ptr - 16, t, p - 16, call.size))
  }

  // Nothing is carried into another block.
  lemma NotCarried(g: Geometry, st: State, call: Call, a: int, y: int)
    requires Inv(g, st) && Legal(g, st, call) && Resizes(call) && Freeable(g, st, a) && Released(call) != a
    requires InPayload(st, a, y) && Resize(g, st, call.ptr - 16, call.size).1 != 0
    ensures PastPrefix(st, call, Resize(g, st, call.ptr - 16, call.size).0,
                       Resize(g, st, call.ptr - 16, call.size).1, y)
  {
    hide Tiled, Filed, Coalesced, Resize, ContentsKept, Resizable;
    var b := call.ptr - 16;
    var (t, p) := Resize(g, st, b, call.size);
    StepInv(g, st, call);
    StepKeepsOthers(g, st, call, a);
    ResizedFreeable(g, st, b, call.size);
    ResizeIsNew(g, st, b, call.size);
    ContentsFit(g, st, b, call.size);
    assert InPayload(t, a, y) && a in Live(st) - {b};
    OtherPayload(g, t, p - 16, a, y);
  }

  predicate Has(known: Contents, y: int, v: int) { y in known && known[y] == v }

  // What is known of the first bytes, as many as both sizes have, moves along.
  lemma KnownMoves(g: Geometry, st: State, call: Call, known: Contents, i: int)
    requires Inv(g, st) && Legal(g, st, call) && Resizes(call) && Step(g, st, call).1 != 0
    requires call.size <= SIZE_T_RANGE - 8 && call.ptr + i in known
    requires 0 <= i < call.size && InPayload(st, call.ptr - 16, call.ptr + i)
    ensures Has(Known(g, st, Ask(call), known), Step(g, st, call).1 + i, known[call.ptr + i])
  {
    hide Tiled, Filed, Coalesced, Resize, ContentsKept, Resizable;
    var b := call.ptr - 16;
    var (t, p) := Resize(g, st, b, call.size);
    ResizedFreeable(g, st, b, call.size);
    ContentsKeptIs(st, b, t, p - 16, call.size);
  }

  // ---- Runs ----

  ghost predicate LegalActions(g: Geometry, st: State, actions: seq<Action>)
    requires Inv(g, st)
    decreases |actions|
  {
    actions == [] ||
    (LegalAction(g, st, actions[0])
     && (NextInv(g, st, actions[0]); LegalActions(g, Next(g, st, actions[0]), actions[1..])))
  }

  ghost function KnownAfter(g: Geometry, st: State, actions: seq<Action>, known: Contents): Contents
    requires Inv(g, st) && LegalActions(g, st, actions)
    decreases |actions|
  {
    if actions == [] then known
    else
      NextInv(g, st, actions[0]);
      KnownAfter(g, Next(g, st, actions[0]), actions[1..], Known(g, st, actions[0], known))
  }

  function CallsIn(actions: seq<Action>): seq<Call> {
    if actions == [] then []
    else if actions[0].Ask? then [actions[0].call] + CallsIn(actions[1..])
    else CallsIn(actions[1..])
  }
}
