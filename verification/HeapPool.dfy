// tlsf_create and tlsf_add_pool: where a pool lies, which sizes are taken, and
// the words that make the first block.
module HeapPool {
  import opened Param
  import opened SizeClass
  import opened Heap
  import opened HeapOps
  import opened HeapWalk
  import opened Header
  import opened HeapMemory
  import opened HeapCommit

  const CONTROL_SIZE := 6536        // sizeof(control_t)
  const POOL_OVERHEAD := 16         // 2 * block_header_overhead

  // align_down on size_t.
  function AlignDown(x: nat, align: nat): nat
    requires align > 0
  {
    x - x % align
  }

  // The bytes of a region that become its first block; the subtraction wraps.
  function PoolBytes(bytes: nat): nat
  {
    AlignDown((bytes - POOL_OVERHEAD) % SIZE_T_RANGE, ALIGN_SIZE)
  }

  predicate PoolTaken(pool: int, bytes: nat) {
    pool % ALIGN_SIZE == 0 && PoolSizeAccepted(PoolBytes(bytes))
  }

  function PoolGeometry(nul: int, pool: int, bytes: nat): Geometry {
    Geometry(nul, pool - BLOCK_HEADER_OVERHEAD, pool + PoolBytes(bytes))
  }

  // No pool yet.
  ghost function Nothing(): State {
    State(map[], map[], {}, seq(CLASS_COUNT, i => []))
  }

  // An accepted region has room for its block and the sentinel; a region too
  // small for the overhead wraps round to a size that is refused.
  lemma TakenPoolFits(pool: int, bytes: nat)
    requires bytes < SIZE_T_RANGE && PoolTaken(pool, bytes)
    ensures bytes >= POOL_OVERHEAD + BLOCK_SIZE_MIN
    ensures PoolBytes(bytes) + POOL_OVERHEAD <= bytes < PoolBytes(bytes) + POOL_OVERHEAD + ALIGN_SIZE
    ensures Multiple8(PoolBytes(bytes))
  {
  }

  // Which regions are taken, and how the pool fills them: the first block's size
  // word comes first, the sentinel's last but for bytes that make no word.
  lemma PoolFillsRegion(nul: int, pool: int, bytes: nat)
    requires bytes < SIZE_T_RANGE
    ensures PoolTaken(pool, bytes)
       <==> Multiple8(pool) && POOL_OVERHEAD + BLOCK_SIZE_MIN <= bytes < POOL_OVERHEAD + BLOCK_SIZE_MAX + ALIGN_SIZE
    ensures PoolTaken(pool, bytes) ==>
      var g := PoolGeometry(nul, pool, bytes);
      && g.nul == nul && g.first + BLOCK_HEADER_OVERHEAD == pool
      && g.last + POOL_OVERHEAD <= pool + bytes < g.last + POOL_OVERHEAD + ALIGN_SIZE
  {
    if PoolTaken(pool, bytes) { TakenPoolFits(pool, bytes); }
  }

  // tlsf_create_with_pool puts the pool right behind the control structure.
  lemma PoolBehindControl(control: int, bytes: nat)
    requires 0 < control && Multiple8(control) && CONTROL_SIZE <= bytes && control + bytes <= SIZE_T_RANGE
    requires PoolTaken(control + CONTROL_SIZE, bytes - CONTROL_SIZE)
    requires PoolBytes(bytes - CONTROL_SIZE) != BLOCK_SIZE_MAX
    ensures ValidGeometry(PoolGeometry(control, control + CONTROL_SIZE, bytes - CONTROL_SIZE))
  {
    TakenPoolFits(control + CONTROL_SIZE, bytes - CONTROL_SIZE);
    hide PoolBytes;
  }

  // The part of memory that an allocator of this layout owns.
  function OwnedPart(g: Geometry, m: Mem): Mem {
    map x | x in m && Owns(g, x) :: m[x]
  }

  // Whatever an allocator does to the words it owns, the rest of the memory it
  // was cut from stays as it is.
  lemma OutsideIsUntouched(g: Geometry, world: Mem, m: Mem, x: int)
    requires Mapped(g, OwnedPart(g, world)) && Mapped(g, m) && x in world
    ensures (world + m).Keys == world.Keys && (x !in OwnedPart(g, world) ==> (world + m)[x] == world[x])
  {
    hide Owns;
    forall y ensures y in world + m <==> y in world {
      assert y in m <==> y in OwnedPart(g, world);
    }
    assert x in m <==> x in OwnedPart(g, world);
  }

  // Every word of the pool lies inside the region it was given.
  lemma PoolMapped(m: Mem, control: int, bytes: nat)
    requires 0 < control && Multiple8(control) && CONTROL_SIZE <= bytes && control + bytes <= SIZE_T_RANGE
    requires forall x :: control <= x && x + 8 <= control + bytes && Multiple8(x) ==> x in m
    requires PoolTaken(control + CONTROL_SIZE, bytes - CONTROL_SIZE)
    ensures var g := PoolGeometry(control, control + CONTROL_SIZE, bytes - CONTROL_SIZE); Mapped(g, OwnedPart(g, m))
  {
    var g := PoolGeometry(control, control + CONTROL_SIZE, bytes - CONTROL_SIZE);
    TakenPoolFits(control + CONTROL_SIZE, bytes - CONTROL_SIZE);
    hide PoolBytes;
    assert Multiple8(control + 16) && Multiple8(control + 24);
    forall x | Owns(g, x) ensures x in m {
    }
  }

  // The words tlsf_add_pool leaves are those of the fresh heap: the first
  // block's size word, its links, the link to it and the sentinel's words.
  lemma FreshHolds(g: Geometry, m0: Mem, m1: Mem, m: Mem)
    requires ValidGeometry(g) && Mapped(g, m0)
    requires g.first + 8 in m && m1 == m0[g.first + 8 := m[g.first + 8]]
    requires g.last + 8 in m && m == Inserted(m1, g.nul, g.first, g.nul)[g.last := g.first][g.last + 8 := m[g.last + 8]]
    requires Says(m[g.first + 8], g.last - g.first - 8, true, false) && Says(m[g.last + 8], 0, false, true)
    ensures Holds(g, Fresh(g), m) && Mapped(g, m)
  {
    hide Says, Multiple8, Mapped;
    FreshMapped(g, m0);
    var st := Fresh(g);
    forall a | a in st.next
      ensures TaggedAt(m, st.next, st.prev, st.free, a)
    {
      assert a == g.first || a == g.last;
    }
    assert m[g.first + 16] == g.nul && m[g.first + 24] == g.nul;
    forall c | 0 <= c < |st.lists|
      ensures Linked(m, g.nul, st.lists[c])
    {
      assert st.lists[c] == [] || st.lists[c] == [g.first];
    }
    MappedKept(g, m0, m);
  }

  // Filing the first block leaves its size word and the domain as they are.
  lemma FirstFiled(g: Geometry, m: Mem)
    requires ValidGeometry(g) && Mapped(g, m)
    ensures var m' := Inserted(m, g.nul, g.first, g.nul);
      m'.Keys == m.Keys && g.first + 8 in m && m'[g.first + 8] == m[g.first + 8]
  {
    hide Owns, Multiple8, Mapped;
    FreshMapped(g, m);
  }

  // The words of the first block and of the sentinel are inside the pool.
  lemma FreshMapped(g: Geometry, m: Mem)
    requires ValidGeometry(g) && Mapped(g, m)
    ensures g.first + 8 in m && g.first + 16 in m && g.first + 24 in m && g.last in m && g.last + 8 in m
    ensures g.nul + 24 in m && Multiple8(g.first + 16) && Multiple8(0)
  {
    assert Multiple8(g.first + 8) && Multiple8(g.first + 16) && Multiple8(g.first + 24) && Multiple8(g.last + 8);
  }

  // The first block is filed where mapping_insert says.
  lemma FreshLists(g: Geometry)
    requires ValidGeometry(g)
    ensures 0 <= g.last - g.first - 8 < BLOCK_SIZE_MAX
    ensures 0 <= Class(g.last - g.first - 8) < CLASS_COUNT
    ensures Fresh(g).lists == Push(Nothing().lists, Class(g.last - g.first - 8), g.first)
  {
    MappingInsertIsClass(g.last - g.first - 8);
    hide Class, Multiple8;
  }
}
