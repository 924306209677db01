// sys/hive/os/pool.c under sys/hive/core/spinlock.c: any number of processors
// calling os_pool_allocate and os_pool_free, one atomic step at a time.
module OsPool {
  import opened Param
  import opened HeapOps
  import opened HeapCalls
  import opened HeapRuns
  import opened Heap
  import opened HeapRoundTrip
  import opened HeapWalk
  import opened HeapMemory

  // os_pool_allocate(length) and os_pool_free(pointer).
  datatype Request = Allocate(length: nat) | Release(pointer: int)

  // Where a processor is in a pool call. irqs is what mu_cpu_irqtest answered.
  datatype Pc =
    | Outside
    | Spinning(request: Request, irqs: bool)    // about to swap 1 into the lock
    | Acquired(request: Request, irqs: bool)    // the swap gave 0; interrupts still masked
    | Locked(request: Request)                  // inside the critical section
    | Working(request: Request)                 // inside the allocator
    | Finished(answer: int)                     // about to swap 0 into the lock

  // The allocator's memory: consistent, in the middle of one processor's call,
  // or wrecked by two calls at once.
  datatype Pool =
    | Whole(st: State)
    | Partial(st: State, worker: nat)
    | Wrecked

  // holder: which processor may use and free which pointer. order: processors in
  // the order the lock admitted them. log: the calls completed and their answers.
  // put: the words that holders have put into their blocks, by address.
  datatype System = System(
    lock: int, pcs: seq<Pc>, irqs: seq<bool>, pool: Pool,
    holder: map<int, nat>, order: seq<nat>, log: seq<Entry>, mem: Mem, put: Mem)

  datatype Entry = Entry(p: nat, call: Call, answer: int)

  datatype Action =
    | Begin(p: nat, request: Request)
    | Swap(p: nat)
    | Unmask(p: nat)
    | Enter(p: nat)
    | Touch(p: nat, address: int, value: int)
    | Finish(p: nat)
    | Unlock(p: nat)
    | Give(p: nat, pointer: int, to: nat)
    | Put(p: nat, pointer: int, address: int, value: int)

  function CallOf(request: Request): Call {
    match request
    case Allocate(length) => MallocCall(length)
    case Release(pointer) => FreeCall(pointer)
  }

  // The allocator's own stores: never into a live block but the one being freed.
  ghost predicate Stores(g: Geometry, s: System, request: Request, address: int) {
    !s.pool.Wrecked? ==>
      forall b :: Freeable(g, s.pool.st, b) && InPayload(s.pool.st, b, address) ==> b == Released(CallOf(request))
  }

  // A processor frees only NULL or a pointer it holds, passes pointers on only
  // between calls, and writes, then and without the lock, to what it holds.
  // Everything else may interleave freely.
  ghost predicate Enabled(g: Geometry, s: System, a: Action) {
    && a.p < |s.pcs| == |s.irqs|
    && match a
       case Begin(p, request) =>
         && s.pcs[p].Outside? && (request.Allocate? ==> request.length < SIZE_T_RANGE)
         && (request.Release? && request.pointer != 0 ==>
               request.pointer in s.holder && s.holder[request.pointer] == p)
       case Swap(p) => s.pcs[p].Spinning?
       case Unmask(p) => s.pcs[p].Acquired?
       case Enter(p) => s.pcs[p].Locked?
       case Touch(p, address, _) => s.pcs[p].Working? && Stores(g, s, s.pcs[p].request, address)
       case Finish(p) => s.pcs[p].Working?
       case Unlock(p) => s.pcs[p].Finished?
       case Give(p, pointer, to) =>
         s.pcs[p].Outside? && pointer in s.holder && s.holder[pointer] == p && to < |s.pcs|
       case Put(p, pointer, address, _) =>
         && s.pcs[p].Outside? && pointer in s.holder && s.holder[pointer] == p
         && !s.pool.Wrecked? && InPayload(s.pool.st, pointer - 16, address)
  }

  // What is put into a block is its owner's until it asks for it to be freed.
  ghost function GivenUp(s: System, request: Request): Mem {
    if request.Release? && request.pointer != 0 && !s.pool.Wrecked? then
      map x | x in s.put && !InPayload(s.pool.st, request.pointer - 16, x) :: s.put[x]
    else s.put
  }

  // The allocator call as a whole; Wrecked when another processor is inside.
  ghost function Completed(g: Geometry, pool: Pool, p: nat, call: Call): (Pool, int) {
    if pool.Partial? && pool.worker == p && Inv(g, pool.st) && Legal(g, pool.st, call) then
      (Whole(Step(g, pool.st, call).0), Step(g, pool.st, call).1)
    else (Wrecked, 0)
  }

  ghost function Next(g: Geometry, s: System, a: Action): System
    requires Enabled(g, s, a)
  {
    match a
    case Begin(p, request) =>
      s.(pcs := s.pcs[p := Spinning(request, s.irqs[p])], irqs := s.irqs[p := false], put := GivenUp(s, request))
    case Swap(p) =>
      // mu_aswap(lock, 1): the old value decides.
      if s.lock == 0 then
        s.(lock := 1, pcs := s.pcs[p := Acquired(s.pcs[p].request, s.pcs[p].irqs)], order := s.order + [p])
      else s.(lock := 1)
    case Unmask(p) =>
      s.(pcs := s.pcs[p := Locked(s.pcs[p].request)], irqs := s.irqs[p := s.irqs[p] || s.pcs[p].irqs])
    case Enter(p) =>
      s.(pcs := s.pcs[p := Working(s.pcs[p].request)],
         pool := if s.pool.Whole? then Partial(s.pool.st, p) else Wrecked)
    case Touch(p, address, value) =>
      s.(pool := if s.pool.Partial? && s.pool.worker == p then s.pool else Wrecked, mem := s.mem[address := value])
    case Finish(p) =>
      var request := s.pcs[p].request;
      var (pool, answer) := Completed(g, s.pool, p, CallOf(request));
      s.(pcs := s.pcs[p := Finished(answer)], pool := pool,
         holder := match request
           case Allocate(_) => (if answer == 0 then s.holder else s.holder[answer := p])
           case Release(pointer) => s.holder - {pointer},
         log := s.log + [Entry(p, CallOf(request), answer)])
    case Unlock(p) =>
      // mu_aswap(lock, 0).
      s.(lock := 0, pcs := s.pcs[p := Outside])
    case Give(p, pointer, to) =>
      s.(holder := s.holder[pointer := to])
    case Put(p, pointer, address, value) =>
      s.(mem := s.mem[address := value], put := s.put[address := value])
  }

  // ---- The invariant ----

  predicate Inside(pc: Pc) {
    pc.Acquired? || pc.Locked? || pc.Working? || pc.Finished?
  }

  predicate Pending(pc: Pc) {
    pc.Spinning? || pc.Acquired? || pc.Locked? || pc.Working?
  }

  // At most one processor holds the lock, and exactly then the word is 1.
  ghost predicate Exclusive(s: System) {
    && (forall p, q :: 0 <= p < |s.pcs| && 0 <= q < |s.pcs| && Inside(s.pcs[p]) && Inside(s.pcs[q]) ==> p == q)
    && (s.lock == 0 || s.lock == 1)
    && (s.lock == 0 <==> forall p :: 0 <= p < |s.pcs| ==> !Inside(s.pcs[p]))
  }

  // The allocator's memory is in the middle of a call exactly while its caller
  // is working on it.
  ghost predicate PoolMatches(s: System) {
    && !s.pool.Wrecked?
    && (s.pool.Partial? ==> s.pool.worker < |s.pcs| && s.pcs[s.pool.worker].Working?)
    && (s.pool.Whole? ==> forall p :: 0 <= p < |s.pcs| ==> !s.pcs[p].Working?)
  }

  // Pointers held are live, and a pointer about to be freed is held by the
  // processor that frees it.
  ghost predicate Owned(g: Geometry, s: System) {
    && !s.pool.Wrecked?
    && (forall pointer :: pointer in s.holder ==> pointer != 0 && Freeable(g, s.pool.st, pointer - 16))
    && (forall p :: 0 <= p < |s.pcs| && Pending(s.pcs[p]) ==> Rightful(s, p, s.pcs[p].request))
  }

  ghost predicate Rightful(s: System, p: nat, request: Request) {
    match request
    case Allocate(length) => length < SIZE_T_RANGE
    case Release(pointer) => pointer != 0 ==> pointer in s.holder && s.holder[pointer] == p
  }

  // Memory holds what owners have put into blocks that nobody is freeing.
  ghost predicate Remembered(s: System) {
    && !s.pool.Wrecked?
    && forall x :: x in s.put ==> x in s.mem && s.mem[x] == s.put[x] && HeldWord(s, x)
  }

  ghost predicate HeldWord(s: System, x: int)
    requires !s.pool.Wrecked?
  {
    exists pointer :: pointer in s.holder && InPayload(s.pool.st, pointer - 16, x) && !BeingFreed(s, pointer)
  }

  ghost predicate BeingFreed(s: System, pointer: int) {
    exists p :: 0 <= p < |s.pcs| && Pending(s.pcs[p]) && s.pcs[p].request == Release(pointer)
  }

  // The answer a processor is about to return with is the one logged last, its own,
  // and a pointer answered to an allocation is the processor's.
  ghost predicate Answered(s: System) {
    forall p :: 0 <= p < |s.pcs| && s.pcs[p].Finished? ==> AnswersLast(s, p, s.pcs[p].answer)
  }

  ghost predicate AnswersLast(s: System, p: nat, answer: int) {
    && s.log != [] && var last := s.log[|s.log| - 1];
    && last.p == p && last.answer == answer
    && (last.call.MallocCall? && answer != 0 ==> answer in s.holder && s.holder[answer] == p)
  }

  function Calls(log: seq<Entry>): (calls: seq<Call>)
    ensures |calls| == |log|
  {
    seq(|log|, i requires 0 <= i < |log| => log[i].call)
  }

  // The log is a legal sequential run from st0 with these very answers.
  ghost predicate Sequential(g: Geometry, st0: State, log: seq<Entry>, st: State)
    requires Inv(g, st0)
    decreases |log|
  {
    if log == [] then st == st0
    else
      Legal(g, st0, log[0].call) && Step(g, st0, log[0].call).1 == log[0].answer
      && (StepInv(g, st0, log[0].call); Sequential(g, Step(g, st0, log[0].call).0, log[1..], st))
  }

  predicate InCall(pc: Pc) {
    pc.Acquired? || pc.Locked? || pc.Working?
  }

  // Calls complete in the order in which the lock admitted their processors.
  ghost predicate LockOrder(s: System) {
    && |s.log| <= |s.order| <= |s.log| + 1
    && (forall i :: 0 <= i < |s.log| ==> s.log[i].p == s.order[i])
    && (forall p :: 0 <= p < |s.pcs| && InCall(s.pcs[p]) ==> |s.order| == |s.log| + 1 && s.order[|s.log|] == p)
    && ((forall p :: 0 <= p < |s.pcs| ==> !InCall(s.pcs[p])) ==> |s.order| == |s.log|)
  }

  // Interrupts are masked while a processor spins, and its own setting is back
  // once it is in the critical section.
  ghost predicate IrqsKept(s: System, own: seq<bool>) {
    && |s.irqs| == |s.pcs| == |own|
    && forall p :: 0 <= p < |s.pcs| ==>
         match s.pcs[p]
         case Spinning(_, irqs) => !s.irqs[p] && irqs == own[p]
         case Acquired(_, irqs) => !s.irqs[p] && irqs == own[p]
         case _ => s.irqs[p] == own[p]
  }

  ghost predicate SystemInv(g: Geometry, st0: State, own: seq<bool>, s: System) {
    && Inv(g, st0) && IrqsKept(s, own) && Exclusive(s) && PoolMatches(s) && LockOrder(s) && Owned(g, s)
    && Remembered(s) && Answered(s) && Inv(g, s.pool.st) && Sequential(g, st0, s.log, s.pool.st)
  }

  // Appending one call to a sequential run.
  lemma {:induction false} SequentialStep(g: Geometry, st0: State, log: seq<Entry>, st: State, p: nat,
                                               call: Call)
    requires Inv(g, st0) && Inv(g, st) && Sequential(g, st0, log, st) && Legal(g, st, call)
    ensures Sequential(g, st0, log + [Entry(p, call, Step(g, st, call).1)], Step(g, st, call).0)
    decreases |log|
  {
    hide Inv, Legal, Step;
    var entry := Entry(p, call, Step(g, st, call).1);
    StepInv(g, st, call);
    if log == [] {
      assert ([] + [entry])[1..] == [];
    } else {
      StepInv(g, st0, log[0].call);
      SequentialStep(g, Step(g, st0, log[0].call).0, log[1..], st, p, call);
      assert (log + [entry])[0] == log[0] && (log + [entry])[1..] == log[1..] + [entry];
    }
  }

  // A log is a run of calls in the sense of HeapRuns.
  lemma {:induction false} SequentialIsRun(g: Geometry, st0: State, log: seq<Entry>, st: State)
    requires Inv(g, st0) && Sequential(g, st0, log, st)
    ensures LegalRun(g, st0, Calls(log)) && Run(g, st0, Calls(log)) == st
    decreases |log|
  {
    hide Inv, Legal, Step;
    if log != [] {
      StepInv(g, st0, log[0].call);
      SequentialIsRun(g, Step(g, st0, log[0].call).0, log[1..], st);
      assert Calls(log)[0] == log[0].call && Calls(log)[1..] == Calls(log[1..]);
    }
  }

  // ---- Every step keeps the invariant ----

  lemma ExclusiveStep(g: Geometry, s: System, a: Action)
    requires Enabled(g, s, a) && Exclusive(s)
    ensures Exclusive(Next(g, s, a))
  {
    hide Completed, Inv, Stores, GivenUp, InPayload;
    var t := Next(g, s, a);
    forall p | 0 <= p < |t.pcs| && p != a.p ensures t.pcs[p] == s.pcs[p] {
    }
    if a.Swap? && s.lock == 0 { assert Inside(t.pcs[a.p]); }
    if !a.Unlock? && s.lock != 0 {
      var q :| 0 <= q < |s.pcs| && Inside(s.pcs[q]);
      assert Inside(t.pcs[q]);
    }
    if a.Unlock? { assert Inside(s.pcs[a.p]); }
  }

  lemma IrqsStep(g: Geometry, s: System, a: Action, own: seq<bool>)
    requires Enabled(g, s, a) && IrqsKept(s, own)
    ensures IrqsKept(Next(g, s, a), own)
  {
    hide Completed, Inv, Stores, GivenUp, InPayload;
  }

  lemma LockOrderStep(g: Geometry, s: System, a: Action)
    requires Enabled(g, s, a) && Exclusive(s) && LockOrder(s)
    ensures LockOrder(Next(g, s, a))
  {
    hide Completed, Inv, Stores, GivenUp, InPayload;
    var t := Next(g, s, a);
    forall q | 0 <= q < |t.pcs| && InCall(t.pcs[q])
      ensures |t.order| == |t.log| + 1 && t.order[|t.log|] == q
    {
      if q != a.p {
        assert InCall(s.pcs[q]) && Inside(s.pcs[q]);
        assert !Inside(s.pcs[a.p]);
      } else if a.Swap? {
        assert forall p :: 0 <= p < |s.pcs| && InCall(s.pcs[p]) ==> Inside(s.pcs[p]);
      } else {
        assert InCall(s.pcs[q]);
      }
    }
    if forall q :: 0 <= q < |t.pcs| ==> !InCall(t.pcs[q]) {
      forall q | 0 <= q < |s.pcs|
        ensures InCall(s.pcs[q]) ==> q == a.p && a.Finish?
      {
        assert !InCall(t.pcs[q]);
      }
      if a.Finish? {
        assert InCall(s.pcs[a.p]) && |s.order| == |s.log| + 1;
      } else {
        assert !InCall(t.pcs[a.p]);
        assert |s.order| == |s.log|;
      }
    }
  }

  // With the lock held by p alone, only p can be inside the allocator.
  lemma PoolStep(g: Geometry, s: System, a: Action)
    requires Enabled(g, s, a) && Exclusive(s) && PoolMatches(s) && Owned(g, s) && Inv(g, s.pool.st)
    ensures PoolMatches(Next(g, s, a))
    ensures var t := Next(g, s, a);
      if a.Finish? then
        Legal(g, s.pool.st, CallOf(s.pcs[a.p].request))
        && t.pool == Whole(Step(g, s.pool.st, CallOf(s.pcs[a.p].request)).0)
        && t.log == s.log + [Entry(a.p, CallOf(s.pcs[a.p].request), Step(g, s.pool.st, CallOf(s.pcs[a.p].request)).1)]
      else t.log == s.log && t.pool.st == s.pool.st
  {
    hide Inv, Step, Freeable, Stores, GivenUp, InPayload;
    if a.p < |s.pcs| && Inside(s.pcs[a.p]) {
      if s.pool.Partial? { assert Inside(s.pcs[s.pool.worker]); }
    }
    if a.Finish? { assert Rightful(s, a.p, s.pcs[a.p].request); }
  }

  // An allocator call leaves every other held pointer live, and a pointer it
  // returns was held by nobody.
  lemma HeldStay(g: Geometry, st: State, call: Call, pointer: int)
    requires Inv(g, st) && Legal(g, st, call) && Freeable(g, st, pointer - 16) && Released(call) != pointer - 16
    ensures Freeable(g, Step(g, st, call).0, pointer - 16)
  {
    StepKeepsOthers(g, st, call, pointer - 16);
  }

  lemma AnswerIsNew(g: Geometry, st: State, length: nat)
    requires Inv(g, st) && length < SIZE_T_RANGE
    ensures var (t, p) := Step(g, st, MallocCall(length)); p != 0 ==> Freeable(g, t, p - 16) && !Freeable(g, st, p - 16)
  {
    hide Tiled, Filed, Coalesced, Malloc;
    MallocLedger(g, st, length);
    var (t, p) := Malloc(g, st, length);
    if p != 0 {
      MallocFreeable(g, st, length);
    }
  }

  lemma OwnedStep(g: Geometry, s: System, a: Action)
    requires Enabled(g, s, a) && Exclusive(s) && PoolMatches(s) && Owned(g, s) && Inv(g, s.pool.st)
    ensures Owned(g, Next(g, s, a))
  {
    hide Inv, Step, Freeable, Completed, Legal, Stores, GivenUp, InPayload;
    PoolStep(g, s, a);
    var t := Next(g, s, a);
    if a.Finish? {
      FinishOwned(g, s, a.p);
    } else {
      forall p | 0 <= p < |t.pcs| && Pending(t.pcs[p])
        ensures Rightful(t, p, t.pcs[p].request)
      {
        if !a.Begin? || p != a.p { assert Pending(s.pcs[p]) && t.pcs[p].request == s.pcs[p].request; }
      }
    }
  }

  lemma FinishOwned(g: Geometry, s: System, p: nat)
    requires Enabled(g, s, Finish(p)) && Exclusive(s) && PoolMatches(s) && Owned(g, s) && Inv(g, s.pool.st)
    ensures Owned(g, Next(g, s, Finish(p)))
  {
    hide Inv, Step, Freeable, Completed, Stores, GivenUp, InPayload;
    PoolStep(g, s, Finish(p));
    var t := Next(g, s, Finish(p));
    var request := s.pcs[p].request;
    var call := CallOf(request);
    assert Rightful(s, p, request);
    var answer := Step(g, s.pool.st, call).1;
    assert t.log[|s.log|] == Entry(p, call, answer);
    if request.Allocate? {
      AnswerIsNew(g, s.pool.st, request.length);
      assert answer != 0 ==> answer !in s.holder;
    }
    forall pointer | pointer in t.holder
      ensures pointer != 0 && Freeable(g, t.pool.st, pointer - 16)
    {
      if pointer in s.holder { HeldStay(g, s.pool.st, call, pointer); }
    }
    forall q | 0 <= q < |t.pcs| && Pending(t.pcs[q])
      ensures Rightful(t, q, t.pcs[q].request)
    {
      assert Rightful(s, q, s.pcs[q].request);
    }
  }

  // No step takes a word from its owner: not the stores of a call in progress, nor
  // the call's end, nor what other owners do meanwhile.
  lemma RememberedStep(g: Geometry, s: System, a: Action)
    requires Enabled(g, s, a) && Exclusive(s) && PoolMatches(s) && Owned(g, s) && Inv(g, s.pool.st) && Remembered(s)
    ensures Remembered(Next(g, s, a))
  {
    hide Inv, Step, Freeable, Completed, Legal, InPayload;
    PoolStep(g, s, a);
    var t := Next(g, s, a);
    forall x | x in t.put
      ensures x in t.mem && t.mem[x] == t.put[x] && HeldWord(t, x)
    {
      if a.Put? && x == a.address {
        PutKept(g, s, a);
      } else {
        var pointer :| pointer in s.holder && InPayload(s.pool.st, pointer - 16, x) && !BeingFreed(s, pointer);
        WordStays(g, s, a, x, pointer);
      }
    }
  }

  lemma PutKept(g: Geometry, s: System, a: Action)
    requires Enabled(g, s, a) && a.Put? && Owned(g, s)
    ensures HeldWord(Next(g, s, a), a.address)
  {
    hide Freeable, InPayload;
    var t := Next(g, s, a);
    assert a.pointer in t.holder && InPayload(t.pool.st, a.pointer - 16, a.address);
    forall p | 0 <= p < |t.pcs| && Pending(t.pcs[p])
      ensures t.pcs[p].request != Release(a.pointer)
    {
      assert Rightful(s, p, s.pcs[p].request);
    }
  }

  lemma WordStays(g: Geometry, s: System, a: Action, x: int, pointer: int)
    requires Enabled(g, s, a) && Exclusive(s) && PoolMatches(s) && Owned(g, s) && Inv(g, s.pool.st) && Remembered(s)
    requires pointer in s.holder && InPayload(s.pool.st, pointer - 16, x) && !BeingFreed(s, pointer)
    requires x in s.put && x in Next(g, s, a).put && !(a.Put? && x == a.address)
    ensures var t := Next(g, s, a);
      !t.pool.Wrecked? && x in t.mem && t.mem[x] == t.put[x] && HeldWord(t, x)
  {
    hide Inv, Step, Freeable, Completed, Legal;
    PoolStep(g, s, a);
    var t := Next(g, s, a);
    if a.Finish? {
      var call := CallOf(s.pcs[a.p].request);
      assert Rightful(s, a.p, s.pcs[a.p].request);
      assert Released(call) != pointer - 16;
      StepKeepsOthers(g, s.pool.st, call, pointer - 16);
      FreeableIsUsed(g, t.pool.st, pointer - 16);
    }
    if a.Touch? { assert Released(CallOf(s.pcs[a.p].request)) != pointer - 16; }
    assert pointer in t.holder && InPayload(t.pool.st, pointer - 16, x);
    forall p | 0 <= p < |t.pcs| && Pending(t.pcs[p])
      ensures t.pcs[p].request != Release(pointer)
    {
      if !(a.Begin? && p == a.p) { assert Pending(s.pcs[p]) && t.pcs[p].request == s.pcs[p].request; }
    }
  }

  lemma FreeableIsUsed(g: Geometry, st: State, b: int)
    requires Freeable(g, st, b)
    ensures Used(st, b)
  {
  }

  lemma AnsweredStep(g: Geometry, s: System, a: Action)
    requires Enabled(g, s, a) && Exclusive(s) && PoolMatches(s) && Owned(g, s) && Inv(g, s.pool.st) && Answered(s)
    ensures Answered(Next(g, s, a))
  {
    hide Inv, Step, Freeable, Completed, Legal, Stores, GivenUp, InPayload;
    PoolStep(g, s, a);
    var t := Next(g, s, a);
    if a.Finish? {
      assert Inside(s.pcs[a.p]);
      assert forall p :: 0 <= p < |s.pcs| && p != a.p ==> !Inside(s.pcs[p]) && t.pcs[p] == s.pcs[p];
      FinishAnswers(g, s, a.p);
    } else {
      assert forall p :: 0 <= p < |t.pcs| && t.pcs[p].Finished? ==> t.pcs[p] == s.pcs[p];
    }
  }

  lemma FinishAnswers(g: Geometry, s: System, p: nat)
    requires Enabled(g, s, Finish(p))
    ensures var t := Next(g, s, Finish(p)); t.pcs[p].Finished? && AnswersLast(t, p, t.pcs[p].answer)
  {
    hide Inv, Step, Completed;
  }

  lemma NextInv(g: Geometry, st0: State, own: seq<bool>, s: System, a: Action)
    requires SystemInv(g, st0, own, s) && Enabled(g, s, a)
    ensures SystemInv(g, st0, own, Next(g, s, a))
  {
    hide Inv, Step, Exclusive, LockOrder, IrqsKept, Next, Legal;
    assert !s.pool.Wrecked?;
    hide PoolMatches, Owned, Remembered, Answered;
    RememberedStep(g, s, a);
    AnsweredStep(g, s, a);
    ExclusiveStep(g, s, a);
    IrqsStep(g, s, a, own);
    LockOrderStep(g, s, a);
    PoolStep(g, s, a);
    OwnedStep(g, s, a);
    if a.Finish? {
      var call := CallOf(s.pcs[a.p].request);
      StepInv(g, s.pool.st, call);
      SequentialStep(g, st0, s.log, s.pool.st, a.p, call);
    }
  }

  // ---- Runs ----

  ghost predicate EnabledRun(g: Geometry, s: System, actions: seq<Action>)
    decreases |actions|
  {
    actions == [] || (Enabled(g, s, actions[0]) && EnabledRun(g, Next(g, s, actions[0]), actions[1..]))
  }

  ghost function After(g: Geometry, s: System, actions: seq<Action>): System
    requires EnabledRun(g, s, actions)
    decreases |actions|
  {
    if actions == [] then s else After(g, Next(g, s, actions[0]), actions[1..])
  }

  // n processors, all outside the pool.
  ghost function Start(st0: State, own: seq<bool>, mem: Mem): System {
    System(0, seq(|own|, i => Outside), own, Whole(st0), map[], [], [], mem, map[])
  }

  lemma {:induction false} RunKeepsInv(g: Geometry, st0: State, own: seq<bool>, s: System, actions: seq<Action>)
    requires SystemInv(g, st0, own, s) && EnabledRun(g, s, actions)
    ensures SystemInv(g, st0, own, After(g, s, actions))
    decreases |actions|
  {
    hide SystemInv, Enabled, Next;
    if actions != [] {
      NextInv(g, st0, own, s, actions[0]);
      RunKeepsInv(g, st0, own, Next(g, s, actions[0]), actions[1..]);
    }
  }

  // For any number of processors and any interleaving: at most one is between
  // acquire and release; every pointer a processor holds is live; whenever the
  // lock word is 0 the heap satisfies its invariant; heap and answers are those of
  // a sequential run of the calls in the order the lock admitted them; and what
  // owners have put into their blocks, lock or no lock, is still there.
  lemma AnyInterleaving(g: Geometry, st0: State, own: seq<bool>, mem: Mem, actions: seq<Action>)
    requires Inv(g, st0) && EnabledRun(g, Start(st0, own, mem), actions)
    ensures var s := After(g, Start(st0, own, mem), actions);
      && Exclusive(s) && LockOrder(s) && IrqsKept(s, own) && Owned(g, s)
      && (s.lock == 0 ==> s.pool.Whole? && |s.order| == |s.log|)
      && !s.pool.Wrecked? && Inv(g, s.pool.st)
      && Sequential(g, st0, s.log, s.pool.st)
      && LegalRun(g, st0, Calls(s.log)) && Run(g, st0, Calls(s.log)) == s.pool.st
      && Remembered(s) && Answered(s)
      && forall p :: 0 <= p < |own| ==> BegunBy(actions, p) == LoggedBy(s.log, p) + PendingOf(s, p)
  {
    hide Inv, Step, Legal, EnabledRun, After;
    var s0 := Start(st0, own, mem);
    assert Exclusive(s0) && PoolMatches(s0) && LockOrder(s0) && Owned(g, s0) && IrqsKept(s0, own);
    assert Remembered(s0) && Answered(s0);
    assert SystemInv(g, st0, own, s0);
    RunKeepsInv(g, st0, own, s0, actions);
    var s := After(g, s0, actions);
    SequentialIsRun(g, st0, s.log, s.pool.st);
    assert s.pool.Partial? ==> Inside(s.pcs[s.pool.worker]);
    assert forall p :: 0 <= p < |s.pcs| && InCall(s.pcs[p]) ==> Inside(s.pcs[p]);
    forall p | 0 <= p < |own|
      ensures BegunBy(actions, p) == LoggedBy(s.log, p) + PendingOf(s, p)
    {
      assert LoggedBy([], p) + PendingOf(s0, p) == [];
      RequestsKept(g, s0, actions, p);
    }
  }

  // ---- Whose call is whose ----

  // The calls a processor has begun in a run, in order.
  function BegunBy(actions: seq<Action>, p: nat): seq<Call> {
    if actions == [] then []
    else
      (match actions[0]
       case Begin(q, Allocate(length)) => if q == p then [MallocCall(length)] else []
       case Begin(q, Release(pointer)) => if q == p then [FreeCall(pointer)] else []
       case _ => [])
      + BegunBy(actions[1..], p)
  }

  // Those of them that have completed, and the one that has not, if any.
  function LoggedBy(log: seq<Entry>, p: nat): seq<Call>
    decreases |log|
  {
    if log == [] then []
    else
      LoggedBy(log[..|log| - 1], p)
      + if log[|log| - 1].p == p then [log[|log| - 1].call] else []
  }

  function PendingOf(s: System, p: nat): seq<Call> {
    if p < |s.pcs| && Pending(s.pcs[p]) then [CallOf(s.pcs[p].request)] else []
  }

  // No call is lost, made up, altered or reordered on its way through the lock.
  lemma {:induction false} RequestsKept(g: Geometry, s: System, actions: seq<Action>, p: nat)
    requires EnabledRun(g, s, actions) && p < |s.pcs|
    ensures var t := After(g, s, actions);
      LoggedBy(s.log, p) + PendingOf(s, p) + BegunBy(actions, p) == LoggedBy(t.log, p) + PendingOf(t, p)
    decreases |actions|
  {
    hide Enabled, Next, LoggedBy, PendingOf;
    if actions != [] {
      RequestKept(g, s, actions[0], p);
      RequestsKept(g, Next(g, s, actions[0]), actions[1..], p);
      assert actions == [actions[0]] + actions[1..];
    }
  }

  lemma RequestKept(g: Geometry, s: System, a: Action, p: nat)
    requires Enabled(g, s, a) && p < |s.pcs|
    ensures var t := Next(g, s, a);
      |t.pcs| == |s.pcs|
      && LoggedBy(s.log, p) + PendingOf(s, p) + BegunBy([a], p) == LoggedBy(t.log, p) + PendingOf(t, p)
  {
    hide Inv, Step, Completed, Stores, GivenUp, InPayload, LoggedBy;
    var t := Next(g, s, a);
    assert BegunBy([a][1..], p) == [];
    if a.Finish? {
      LoggedMore(s.log, t.log[|s.log|], p);
    } else {
      assert t.log == s.log;
    }
  }

  lemma LoggedMore(log: seq<Entry>, entry: Entry, p: nat)
    ensures LoggedBy(log + [entry], p) == LoggedBy(log, p) + if entry.p == p then [entry.call] else []
  {
    assert (log + [entry])[..|log|] == log;
  }

  // ---- A word put lasts ----

  // From here on nobody puts another value at x or asks for its block to be freed.
  ghost predicate LeftAlone(g: Geometry, s: System, actions: seq<Action>, x: int)
    requires EnabledRun(g, s, actions)
    decreases |actions|
  {
    actions == [] ||
    (&& !(actions[0].Put? && actions[0].address == x)
     && !Releases(s, actions[0], x)
     && LeftAlone(g, Next(g, s, actions[0]), actions[1..], x))
  }

  ghost predicate Releases(s: System, a: Action, x: int) {
    && a.Begin? && a.request.Release? && !s.pool.Wrecked?
    && InPayload(s.pool.st, a.request.pointer - 16, x)
  }

  lemma {:induction false} StillPut(g: Geometry, s: System, actions: seq<Action>, x: int)
    requires EnabledRun(g, s, actions) && LeftAlone(g, s, actions, x) && x in s.put
    ensures x in After(g, s, actions).put && After(g, s, actions).put[x] == s.put[x]
    decreases |actions|
  {
    hide Enabled, Releases;
    if actions != [] {
      PutStays(g, s, actions[0], x);
      hide Next;
      StillPut(g, Next(g, s, actions[0]), actions[1..], x);
    }
  }

  lemma PutStays(g: Geometry, s: System, a: Action, x: int)
    requires Enabled(g, s, a) && x in s.put && !(a.Put? && a.address == x) && !Releases(s, a, x)
    ensures x in Next(g, s, a).put && Next(g, s, a).put[x] == s.put[x]
  {
    hide Inv, Step, Completed, Stores, InPayload;
  }

  // What an owner puts into its block is there as long as nobody puts something
  // else there or frees the block, whatever all processors do meanwhile.
  lemma PutLasts(g: Geometry, st0: State, own: seq<bool>, s: System, a: Action, actions: seq<Action>)
    requires SystemInv(g, st0, own, s) && Enabled(g, s, a) && a.Put? && EnabledRun(g, Next(g, s, a), actions)
    requires LeftAlone(g, Next(g, s, a), actions, a.address)
    ensures var t := After(g, Next(g, s, a), actions); a.address in t.mem && t.mem[a.address] == a.value
  {
    hide SystemInv, Enabled, Next, EnabledRun, After, LeftAlone;
    NextInv(g, st0, own, s, a);
    PutPuts(g, s, a);
    RunKeepsInv(g, st0, own, Next(g, s, a), actions);
    StillPut(g, Next(g, s, a), actions, a.address);
    InvRemembers(g, st0, own, After(g, Next(g, s, a), actions));
  }

  lemma PutPuts(g: Geometry, s: System, a: Action)
    requires Enabled(g, s, a) && a.Put?
    ensures a.address in Next(g, s, a).put && Next(g, s, a).put[a.address] == a.value
  {
    hide InPayload;
  }

  lemma InvRemembers(g: Geometry, st0: State, own: seq<bool>, s: System)
    requires SystemInv(g, st0, own, s)
    ensures forall x :: x in s.put ==> x in s.mem && s.mem[x] == s.put[x]
  {
    hide Inv, Exclusive, IrqsKept, PoolMatches, LockOrder, Owned, Sequential;
  }

  // ---- A call alone ----

  // The steps of one call.
  function CallAlone(p: nat, request: Request): seq<Action> {
    [Begin(p, request), Swap(p), Unmask(p), Enter(p), Finish(p), Unlock(p)]
  }

  // When the lock is free, a processor that calls gets through in one go: it has
  // the sequential allocator's answer, and its interrupts are as before.
  lemma AloneSucceeds(g: Geometry, st0: State, own: seq<bool>, s: System, p: nat, request: Request)
    requires SystemInv(g, st0, own, s) && s.lock == 0 && Enabled(g, s, Begin(p, request))
    ensures EnabledRun(g, s, CallAlone(p, request)) && !s.pool.Wrecked? && Legal(g, s.pool.st, CallOf(request))
    ensures var t := After(g, s, CallAlone(p, request)); var (st, answer) := Step(g, s.pool.st, CallOf(request));
      && t.lock == 0 && t.pool == Whole(st) && t.irqs == s.irqs && t.pcs == s.pcs
      && t.log == s.log + [Entry(p, CallOf(request), answer)]
  {
    hide Inv, Step, InPayload, GivenUp, Stores, Freeable;
    assert s.pool.Partial? ==> Inside(s.pcs[s.pool.worker]);
    assert s.pool.Whole? && Legal(g, s.pool.st, CallOf(request)) && Inv(g, s.pool.st);
    hide SystemInv, Legal, Enabled, Next;
    LeavesAlone(g, s, p, request);
    EntersAlone(g, s, p, request, [Finish(p), Unlock(p)]);
    assert CallAlone(p, request) == [Begin(p, request), Swap(p), Unmask(p), Enter(p)] + [Finish(p), Unlock(p)];
  }

  ghost function Entered(s: System, p: nat, request: Request): System
    requires s.pool.Whole? && p < |s.pcs|
  {
    s.(lock := 1, pcs := s.pcs[p := Working(request)], pool := Partial(s.pool.st, p), order := s.order + [p],
       put := GivenUp(s, request))
  }

  lemma EntersAlone(g: Geometry, s: System, p: nat, request: Request, rest: seq<Action>)
    requires Enabled(g, s, Begin(p, request)) && s.lock == 0 && s.pool.Whole?
    requires EnabledRun(g, Entered(s, p, request), rest)
    ensures var all := [Begin(p, request), Swap(p), Unmask(p), Enter(p)] + rest;
      EnabledRun(g, s, all) && After(g, s, all) == After(g, Entered(s, p, request), rest)
  {
    hide InPayload, GivenUp, Stores, EnabledRun, After, Completed;
    var s1 := Next(g, s, Begin(p, request));
    var s2 := Next(g, s1, Swap(p));
    var s3 := Next(g, s2, Unmask(p));
    assert s3.irqs == s.irqs && s3.pcs == s.pcs[p := Locked(request)];
    var s4 := Next(g, s3, Enter(p));
    assert s4.pcs == s.pcs[p := Working(request)];
    assert s4 == Entered(s, p, request);
    hide Enabled, Next, Entered;
    RunAdds(g, s3, Enter(p), rest);
    RunAdds(g, s2, Unmask(p), [Enter(p)] + rest);
    RunAdds(g, s1, Swap(p), [Unmask(p)] + ([Enter(p)] + rest));
    RunAdds(g, s, Begin(p, request), [Swap(p)] + ([Unmask(p)] + ([Enter(p)] + rest)));
    assert [Begin(p, request), Swap(p), Unmask(p), Enter(p)] + rest
        == [Begin(p, request)] + ([Swap(p)] + ([Unmask(p)] + ([Enter(p)] + rest)));
  }

  lemma LeavesAlone(g: Geometry, s: System, p: nat, request: Request)
    requires p < |s.pcs| == |s.irqs| && s.pcs[p].Outside? && s.pool.Whole?
    requires Inv(g, s.pool.st) && Legal(g, s.pool.st, CallOf(request))
    ensures EnabledRun(g, Entered(s, p, request), [Finish(p), Unlock(p)])
    ensures var t := After(g, Entered(s, p, request), [Finish(p), Unlock(p)]);
      var (st, answer) := Step(g, s.pool.st, CallOf(request));
      && t.lock == 0 && t.pool == Whole(st) && t.irqs == s.irqs && t.pcs == s.pcs
      && t.log == s.log + [Entry(p, CallOf(request), answer)]
  {
    hide Inv, Step, Legal, InPayload, GivenUp, Stores;
    var s4 := Entered(s, p, request);
    var s5 := Next(g, s4, Finish(p));
    var s6 := Next(g, s5, Unlock(p));
    assert s6.pcs == s.pcs;
    hide Enabled, Next;
    RunAdds(g, s5, Unlock(p), []);
    RunAdds(g, s4, Finish(p), [Unlock(p)]);
    assert [Unlock(p)] + [] == [Unlock(p)] && [Finish(p)] + [Unlock(p)] == [Finish(p), Unlock(p)];
  }

  lemma RunAdds(g: Geometry, s: System, a: Action, rest: seq<Action>)
    requires Enabled(g, s, a) && EnabledRun(g, Next(g, s, a), rest)
    ensures EnabledRun(g, s, [a] + rest) && After(g, s, [a] + rest) == After(g, Next(g, s, a), rest)
  {
    hide Enabled, Next;
    assert ([a] + rest)[0] == a && ([a] + rest)[1..] == rest;
  }
}
