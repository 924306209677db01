// sys/hive/mm/tlsf.c: the allocator itself, over the words of one pool.
module Tlsf {
  import opened Param
  import opened Arith
  import opened SizeClass
  import opened Words
  import opened Heap
  import opened HeapOps
  import opened HeapCalls
  import opened HeapAlign
  import opened HeapMemalign
  import opened HeapRealloc
  import opened Header
  import opened HeapMemory
  import opened HeapCommit
  import opened FreeIndex
  import opened HeapWalk
  import opened HeapPool
  import opened Bytes

  class Control {
    // Where block_null, the first block and the sentinel are.
    const g: Geometry

    // Memory, by byte address; fl_bitmap, sl_bitmap[25] and blocks[25][32], the
    // last in row-major order.
    var mem: Mem
    var flBitmap: Word
    const slBitmap: array<Word>
    const blocks: array<int>

    // The abstract heap that memory and index represent.
    ghost var st: State

    ghost predicate Indexed()
      reads this, slBitmap, blocks
    {
      && slBitmap.Length == FL_INDEX_COUNT && blocks.Length == CLASS_COUNT
      && (slBitmap as object) != blocks
      && Indexes(flBitmap, slBitmap[..], blocks[..], g.nul, st.lists)
    }

    ghost predicate Rep()
      reads this, slBitmap, blocks
    {
      Indexed() && Mapped(g, mem) && Holds(g, st, mem)
    }

    // The invariant between calls.
    ghost predicate Valid()
      reads this, slBitmap, blocks
    {
      Rep() && Inv(g, st)
    }

    // After tlsf_create, before any pool: all lists empty.
    ghost predicate Constructed()
      reads this, slBitmap, blocks
    {
      Indexed() && st == Nothing() && g.nul > 0
    }

    // tlsf_create: control_construct over the control structure at g.nul.
    constructor (geometry: Geometry, memory: Mem)
      requires geometry.nul > 0
      ensures Constructed() && g == geometry && fresh(slBitmap) && fresh(blocks)
      ensures mem == memory[g.nul + NEXT_FREE_AT := g.nul][g.nul + PREV_FREE_AT := g.nul]
    {
      g := geometry;
      mem := memory[geometry.nul + NEXT_FREE_AT := geometry.nul][geometry.nul + PREV_FREE_AT := geometry.nul];
      flBitmap := Zero();
      slBitmap := new Word[FL_INDEX_COUNT](_ => Zero());
      blocks := new int[CLASS_COUNT];
      st := Nothing();
      new;
      ConstructLists();
    }

    // The two loops of control_construct.
    method ConstructLists()
      requires slBitmap.Length == FL_INDEX_COUNT && blocks.Length == CLASS_COUNT
      requires (slBitmap as object) != blocks && flBitmap == Zero() && st == Nothing()
      modifies slBitmap, blocks
      ensures Indexed()
    {
      var i := 0;
      while i < FL_INDEX_COUNT
        invariant 0 <= i <= FL_INDEX_COUNT
        invariant forall k :: 0 <= k < i ==> slBitmap[k] == Zero()
        invariant forall k :: 0 <= k < 32 * i ==> blocks[k] == g.nul
      {
        slBitmap[i] := Zero();
        var j := 0;
        while j < SL_INDEX_COUNT
          invariant 0 <= j <= SL_INDEX_COUNT && slBitmap[i] == Zero()
          invariant forall k :: 0 <= k < i ==> slBitmap[k] == Zero()
          invariant forall k :: 0 <= k < 32 * i + j ==> blocks[k] == g.nul
        {
          blocks[32 * i + j] := g.nul;
          j := j + 1;
        }
        i := i + 1;
      }
      EmptyIndexed(slBitmap[..], blocks[..], g.nul);
    }

    // tlsf_add_pool; NULL when the region is misaligned or of a refused size.
    method AddPool(pool: int, bytes: nat) returns (added: int)
      requires Constructed() && bytes < SIZE_T_RANGE
      requires PoolTaken(pool, bytes) ==>
        PoolBytes(bytes) != BLOCK_SIZE_MAX && g == PoolGeometry(g.nul, pool, bytes)
        && ValidGeometry(g) && Mapped(g, mem)
      modifies this, slBitmap, blocks
      ensures added == if PoolTaken(pool, bytes) then pool else 0
      ensures PoolTaken(pool, bytes) ==> Valid() && st == Fresh(g)
      ensures !PoolTaken(pool, bytes) ==> Constructed() && mem == old(mem)
    {
      hide Indexes, Mapped, Holds, BlockSize, FreeBit, PrevFreeBit, Class, MappingInsert, Multiple8, PoolBytes, Inv;
      hide Fresh, Nothing, SetSize, SetFree, SetUsed, SetPrevFree, SetPrevUsed, Inserted;
      var poolBytes := PoolBytes(bytes);
      if pool % ALIGN_SIZE != 0 {
        return 0;
      }
      if poolBytes < BLOCK_SIZE_MIN || poolBytes > BLOCK_SIZE_MAX {
        return 0;
      }
      assert PoolTaken(pool, bytes);
      ghost var m0 := mem;
      var block := pool - BLOCK_HEADER_OVERHEAD;
      FreshMapped(g, mem);
      FreshLists(g);
      FreshIsInv(g);
      MappingInsertIsClass(poolBytes);
      TakenPoolFits(pool, bytes);
      FirstWord(mem[block + 8], poolBytes);
      mem := mem[block + 8 := SetPrevUsed(SetFree(SetSize(mem[block + 8], poolBytes)))];
      var (fl, sl) := MappingInsert(BlockSize(mem[block + 8]));
      NothingFiled(32 * fl + sl);
      ghost var m1 := mem;
      InsertFreeBlock(block, fl, sl);
      ghost var m2 := mem;
      MappedKept(g, m0, m1);
      FirstFiled(g, m1);
      assert m2 == Inserted(m1, g.nul, block, g.nul);
      var next := BlockLinkNext(block);
      assert next == g.last && mem == m2[g.last := block];
      LastWord(mem[next + 8]);
      mem := mem[next + 8 := SetPrevFree(SetUsed(SetSize(mem[next + 8], 0)))];
      FreshHolds(g, m0, m0[block + 8 := mem[block + 8]], mem);
      st := Fresh(g);
      added := pool;
    }

    // ---- Header fields ----

    // block_next, which asserts that the block is not the last, and the link back.
    method BlockLinkNext(block: int) returns (next: int)
      requires block + 8 in mem && BlockSize(mem[block + 8]) != 0
      modifies this`mem
      ensures next == block + 8 + BlockSize(old(mem)[block + 8])
      ensures mem == old(mem)[next := block]
    {
      assert BlockSize(mem[block + 8]) != 0;
      next := block + 8 + BlockSize(mem[block + 8]);
      mem := mem[next := block];
    }

    // block_mark_as_free: the successor learns of it and points back.
    method BlockMarkAsFree(block: int)
      requires block + 8 in mem && BlockSize(mem[block + 8]) >= BLOCK_SIZE_MIN
      requires block + 16 + BlockSize(mem[block + 8]) in mem
      modifies this`mem
      ensures var next := block + 8 + BlockSize(old(mem)[block + 8]);
        && WritesOnly(old(mem)[next := block], mem, {block + 8, next + 8})
        && next in mem && mem[next] == block && block + 8 in mem && next + 8 in mem
        && Says(mem[block + 8], BlockSize(old(mem)[block + 8]), true, PrevFreeBit(old(mem)[block + 8]))
        && Says(mem[next + 8], BlockSize(old(mem)[next + 8]), FreeBit(old(mem)[next + 8]), true)
    {
      hide BlockSize, FreeBit, PrevFreeBit, SetFree, SetPrevFree;
      var next := BlockLinkNext(block);
      StatusUpdates(mem[next + 8]);
      StatusUpdates(mem[block + 8]);
      mem := mem[next + 8 := SetPrevFree(mem[next + 8])];
      mem := mem[block + 8 := SetFree(mem[block + 8])];
    }

    method BlockMarkAsUsed(block: int)
      requires block + 8 in mem && BlockSize(mem[block + 8]) >= BLOCK_SIZE_MIN
      requires block + 16 + BlockSize(mem[block + 8]) in mem
      modifies this`mem
      ensures var next := block + 8 + BlockSize(old(mem)[block + 8]);
        && WritesOnly(old(mem), mem, {block + 8, next + 8})
        && block + 8 in mem && next + 8 in mem
        && Says(mem[block + 8], BlockSize(old(mem)[block + 8]), false, PrevFreeBit(old(mem)[block + 8]))
        && Says(mem[next + 8], BlockSize(old(mem)[next + 8]), FreeBit(old(mem)[next + 8]), false)
    {
      hide BlockSize, FreeBit, PrevFreeBit, SetUsed, SetPrevUsed;
      assert BlockSize(mem[block + 8]) != 0;
      var next := block + 8 + BlockSize(mem[block + 8]);
      StatusUpdates(mem[next + 8]);
      StatusUpdates(mem[block + 8]);
      mem := mem[next + 8 := SetPrevUsed(mem[next + 8])];
      mem := mem[block + 8 := SetUsed(mem[block + 8])];
    }

    // block_split: the remainder is marked free; its previous-free bit is
    // whatever the payload word there held, until the caller sets it.
    method BlockSplit(block: int, size: int) returns (remaining: int)
      requires block + 8 in mem && block + size + 16 in mem
      requires size >= BLOCK_SIZE_MIN && BlockSize(mem[block + 8]) >= size + BLOCK_HEADER_SIZE
      requires block + 8 + BlockSize(mem[block + 8]) in mem && block + 16 + BlockSize(mem[block + 8]) in mem
      requires Multiple8(size) && Multiple8(BlockSize(mem[block + 8])) && Multiple8(block)
      modifies this`mem
      ensures remaining == block + size + 8
      ensures SplitStores(old(mem), mem, block, remaining, block + 8 + BlockSize(old(mem)[block + 8]))
    {
      hide BlockSize, FreeBit, PrevFreeBit, SetSize;
      remaining := block + 16 + (size - 8);
      var remainSize := BlockSize(mem[block + 8]) - (size + 8);
      SumsAligned(block, size, BlockSize(mem[block + 8]));
      assert Multiple8(remaining + 16);
      hide Multiple8;
      assert BlockSize(mem[block + 8]) == remainSize + size + 8;
      SizeUpdate(mem[remaining + 8], remainSize);
      SizeUpdate(mem[block + 8], size);
      mem := mem[remaining + 8 := SetSize(mem[remaining + 8], remainSize)];
      assert BlockSize(mem[remaining + 8]) >= BLOCK_SIZE_MIN;
      mem := mem[block + 8 := SetSize(mem[block + 8], size)];
      BlockMarkAsFree(remaining);
    }

    // block_absorb: take over the storage of the block that follows.
    method BlockAbsorb(prev: int, block: int)
      requires prev + 8 in mem && block + 8 in mem && Multiple8(BlockSize(mem[block + 8]))
      requires BlockSize(mem[prev + 8]) > 0 && BlockSize(mem[block + 8]) >= 0
      requires block == prev + 8 + BlockSize(mem[prev + 8])
      modifies this`mem
      ensures var next := block + 8 + BlockSize(old(mem)[block + 8]);
        && prev + 8 in mem && next in mem && mem[next] == prev
        && mem == old(mem)[prev + 8 := mem[prev + 8]][next := prev]
        && (next != prev + 8 ==>
              Says(mem[prev + 8], next - prev - 8, FreeBit(old(mem)[prev + 8]), PrevFreeBit(old(mem)[prev + 8])))
    {
      hide BlockSize, FreeBit, PrevFreeBit;
      assert BlockSize(mem[prev + 8]) != 0;
      OverheadAligned(BlockSize(mem[block + 8]));
      SizeAdded(mem[prev + 8], BlockSize(mem[block + 8]) + 8);
      mem := mem[prev + 8 := mem[prev + 8] + (BlockSize(mem[block + 8]) + 8)];
      var next := BlockLinkNext(prev);
    }

    // ---- Free lists ----

    // Remove a free block from list (fl, sl).
    method RemoveFreeBlock(block: int, fl: int, sl: int, ghost hand: set<int>)
      requires Rep() && Physical(g, st) && Filed(st.next, st.free, st.lists, hand)
      requires block in st.free && block !in hand
      requires 0 <= fl < FL_INDEX_COUNT && 0 <= sl < SL_INDEX_COUNT
      requires block in st.next && 32 * fl + sl == ClassOf(st, block)
      modifies this, slBitmap, blocks
      ensures Rep() && st == Unfile(old(st), block)
      ensures Kept(old(st), old(mem), mem, -1)
    {
      hide Tiled, Filed, Holds, Mapped, Kept, Indexes, Drop;
      ghost var c := 32 * fl + sl;
      ghost var i := PositionInList(g, st, hand, block);
      RemoveCommit(g, st, mem, hand, c, i);
      ReadLinks(g, st, mem, c, i);
      InListSpread(g, st, hand, c);
      RemoveIndexes(flBitmap, slBitmap[..], blocks[..], g.nul, st.lists, fl, sl, i);
      var prev := mem[block + 24];
      var next := mem[block + 16];
      assert prev != 0 && next != 0 by { LinksNonNull(g, st, hand, c, i); }
      MappedKept(g, mem, Removed(mem, prev, next));
      mem := mem[next + 24 := prev];
      mem := mem[prev + 16 := next];
      if blocks[32 * fl + sl] == block {
        blocks[32 * fl + sl] := next;
        if next == g.nul {
          slBitmap[fl] := And(slBitmap[fl], Not(Shl(One(), sl)));
          if slBitmap[fl] == Zero() {
            flBitmap := And(flBitmap, Not(Shl(One(), fl)));
          }
        }
      }
      st := Unfile(st, block);
    }

    // insert_free_block: put a block at the head of list (fl, sl).
    method InsertFreeBlock(block: int, fl: int, sl: int)
      requires Indexed() && 0 <= fl < FL_INDEX_COUNT && 0 <= sl < SL_INDEX_COUNT
      requires block > 0 && Multiple8(block + 16) && HeadOf(g.nul, st.lists[32 * fl + sl]) > 0
      modifies this`mem, this`flBitmap, slBitmap, blocks
      ensures mem == Inserted(old(mem), g.nul, block, HeadOf(g.nul, st.lists[32 * fl + sl]))
      ensures Indexes(flBitmap, slBitmap[..], blocks[..], g.nul, Push(st.lists, 32 * fl + sl, block))
    {
      hide Indexes, Multiple8;
      InsertIndexes(flBitmap, slBitmap[..], blocks[..], g.nul, st.lists, fl, sl, block);
      var current := blocks[32 * fl + sl];
      HeadIs(flBitmap, slBitmap[..], blocks[..], g.nul, st.lists, 32 * fl + sl);
      assert current != 0 && block != 0;
      mem := mem[block + 16 := current];
      mem := mem[block + 24 := g.nul];
      mem := mem[current + 24 := block];
      assert Multiple8(block + 16);
      blocks[32 * fl + sl] := block;
      flBitmap := Or(flBitmap, Shl(One(), fl));
      slBitmap[fl] := Or(slBitmap[fl], Shl(One(), sl));
    }

    // block_remove and block_insert: the list is the one mapping_insert names.
    method BlockRemove(block: int, ghost hand: set<int>)
      requires Rep() && Physical(g, st) && Filed(st.next, st.free, st.lists, hand)
      requires block in st.free && block !in hand && block in st.next
      modifies this, slBitmap, blocks
      ensures Rep() && st == Unfile(old(st), block)
      ensures Kept(old(st), old(mem), mem, -1)
    {
      hide Tiled, Filed, Holds, Mapped, Kept, Indexes, BlockSize;
      ReadTag(g, st, mem, block);
      ClassInRange(g, st, block);
      MappingInsertIsClass(Size(st.next, block));
      hide Class, MappingInsert;
      var (fl, sl) := MappingInsert(BlockSize(mem[block + 8]));
      RemoveFreeBlock(block, fl, sl, hand);
    }

    method BlockInsert(block: int, ghost hand: set<int>)
      requires Rep() && Physical(g, st) && Filed(st.next, st.free, st.lists, hand)
      requires block in st.free && block in hand && block in st.next
      modifies this, slBitmap, blocks
      ensures Rep() && st == File(old(st), block)
      ensures Kept(old(st), old(mem), mem, -1)
    {
      hide Tiled, Filed, Holds, Mapped, Kept, Indexes, BlockSize;
      ReadTag(g, st, mem, block);
      ClassInRange(g, st, block);
      MappingInsertIsClass(Size(st.next, block));
      HeadersAligned(g, st, block);
      HeadNonNull(g, st, hand, ClassOf(st, block));
      InsertCommit(g, st, mem, hand, block, ClassOf(st, block));
      MappedKept(g, mem, Inserted(mem, g.nul, block, HeadOf(g.nul, st.lists[ClassOf(st, block)])));
      hide Class, MappingInsert, Multiple8, Inserted, ClassOf;
      var (fl, sl) := MappingInsert(BlockSize(mem[block + 8]));
      InsertFreeBlock(block, fl, sl);
      st := File(st, block);
    }

    // ---- Splitting and merging ----

    // block_trim_free: give the tail of a free block in hand back to the lists.
    method BlockTrimFree(block: int, size: int)
      requires Rep() && Holding(g, st, block) && block in st.next && st.next[block] !in st.free
      requires Multiple8(size) && size >= BLOCK_SIZE_MIN
      modifies this, slBitmap, blocks
      ensures Rep() && st == TrimFree(old(st), block, size)
      ensures Kept(old(st), old(mem), mem, -1)
    {
      hide Tiled, Filed, Holds, Mapped, Kept, Indexes, BlockSize, FreeBit, PrevFreeBit, CoalescedBut, Multiple8;
      ReadTag(g, st, mem, block);
      assert FreeBit(mem[block + 8]) && block != g.last && |st.lists| == CLASS_COUNT;
      assert Physical(g, st) && Filed(st.next, st.free, st.lists, {block});
      if BlockSize(mem[block + 8]) >= BLOCK_HEADER_SIZE + size {
        ghost var m0, s0, r := mem, st, block + size + 8;
        CutSpot(g, st, mem, block, size);
        CutHolding(g, st, block, r);
        NotABlock(g, st, block, r);
        var remaining := CutOffFree(block, size);
        ghost var m1 := mem;
        BlockInsert(remaining, {block, r});
        CutThenInsert(s0, m0, m1, mem, block, r);
      } else {
        KeptAll(st, mem, -1);
      }
    }

    // Split, link, set the previous-free bit: the cut of a free block's tail.
    method CutOffFree(block: int, size: int) returns (remaining: int)
      requires Rep() && Holding(g, st, block) && block in st.next
      requires Multiple8(size) && size >= BLOCK_SIZE_MIN && CanSplit(st, block, size)
      modifies this`mem, this`st
      ensures remaining == block + size + 8 && Rep() && st == Cut(old(st), block, remaining)
      ensures Kept(old(st), old(mem), mem, block)
    {
      hide Tiled, Filed, Holds, Mapped, Kept, Indexes, BlockSize, FreeBit, PrevFreeBit, CoalescedBut, Multiple8;
      ReadTag(g, st, mem, block);
      ghost var m0, s0, r := mem, st, block + size + 8;
      CutSpot(g, st, mem, block, size);
      remaining := BlockSplit(block, size);
      CutOfFree(st, m0, mem, block, r);
      CutSizes(m0, mem, block, r, s0);
      hide SplitStores, CutStores;
      ghost var m2 := mem[r := block][r + 8 := SetPrevFree(mem[r + 8])];
      var next := BlockLinkNext(block);
      mem := mem[remaining + 8 := SetPrevFree(mem[remaining + 8])];
      assert mem == m2;
      CutStored(g, s0, m0, mem, {block}, block, r);
      MappedKept(g, m0, mem);
      st := Cut(st, block, r);
    }

    // block_trim_free_leading: file the first gap - 8 bytes of a block in hand and
    // go on with the rest.
    method BlockTrimFreeLeading(block: int, size: int) returns (remaining: int)
      requires Rep() && Holding(g, st, block) && block in st.next && st.next[block] !in st.free
      requires Coalesced(st.next, st.free) && Multiple8(size) && size >= BLOCK_HEADER_SIZE
      modifies this, slBitmap, blocks
      ensures Rep() && (st, remaining) == TrimLeading(old(st), block, size)
      ensures Kept(old(st), old(mem), mem, -1)
    {
      hide Tiled, Filed, Holds, Mapped, Kept, Indexes, BlockSize, FreeBit, PrevFreeBit, CoalescedBut, Multiple8;
      hide Coalesced;
      remaining := block;
      ReadTag(g, st, mem, block);
      if BlockSize(mem[block + 8]) >= BLOCK_HEADER_SIZE + size {
        ghost var m0, s0, r := mem, st, block + size;
        LeadingPlace(g, st, mem, block, size);
        CutHolding(g, st, block, r);
        NotABlock(g, st, block, r);
        remaining := CutLeading(block, size);
        ghost var m1 := mem;
        BlockInsert(block, {block, r});
        CutThenInsert(s0, m0, m1, mem, block, r);
      } else {
        KeptAll(st, mem, -1);
      }
    }

    // Split, set the previous-free bit, link: the cut of a leading part.
    method CutLeading(block: int, size: int) returns (remaining: int)
      requires Rep() && Holding(g, st, block) && block in st.next
      requires Multiple8(size) && size >= BLOCK_HEADER_SIZE && CanSplit(st, block, size)
      modifies this`mem, this`st
      ensures remaining == block + size && Rep() && st == Cut(old(st), block, remaining)
      ensures Kept(old(st), old(mem), mem, block)
    {
      hide Tiled, Filed, Holds, Mapped, Kept, Indexes, BlockSize, FreeBit, PrevFreeBit, CoalescedBut, Multiple8;
      ReadTag(g, st, mem, block);
      ghost var m0, s0, r := mem, st, block + size;
      LeadingPlace(g, st, mem, block, size);
      remaining := BlockSplit(block, size - BLOCK_HEADER_OVERHEAD);
      CutOfFree(st, m0, mem, block, r);
      CutSizes(m0, mem, block, r, s0);
      hide SplitStores, CutStores;
      ghost var m2 := mem[r := block][r + 8 := SetPrevFree(mem[r + 8])];
      mem := mem[remaining + 8 := SetPrevFree(mem[remaining + 8])];
      var next := BlockLinkNext(block);
      assert mem == m2;
      CutStored(g, s0, m0, mem, {block}, block, r);
      MappedKept(g, m0, mem);
      st := Cut(st, block, r);
    }

    // block_merge_prev: a block being freed joins a free predecessor.
    method BlockMergePrev(block: int) returns (merged: int)
      requires Rep() && Holding(g, st, block) && PrevLinked(st, block)
      modifies this, slBitmap, blocks
      ensures Rep() && (st, merged) == MergePrev(old(st), block)
      ensures Kept(old(st), old(mem), mem, -1)
    {
      hide Tiled, Filed, Holds, Mapped, Kept, Indexes, BlockSize, FreeBit, PrevFreeBit, CoalescedBut, Multiple8;
      merged := block;
      ReadTag(g, st, mem, block);
      if PrevFreeBit(mem[block + 8]) {
        ReadFooter(g, st, mem, st.prev[block]);
        var prev := mem[block];
        assert prev != 0 && prev + 8 in mem && FreeBit(mem[prev + 8]) by {
          PrevOf(g, st, block);
          ReadTag(g, st, mem, prev);
        }
        PrevOf(g, st, block);
        ghost var s0, m0 := st, mem;
        BlockRemove(prev, {block});
        ghost var m1 := mem;
        UnfileFiled(g, s0, {block}, prev);
        assert {block} + {prev} == {block, prev};
        JoinFree(prev, block, {block, prev});
        UnfiledKept(s0, prev, m0, m1, mem);
        merged := prev;
      } else {
        KeptAll(st, mem, -1);
      }
    }

    // block_merge_next: a free block in hand joins a free successor.
    method BlockMergeNext(block: int) returns (merged: int)
      requires Rep() && Holding(g, st, block) && block in st.next
      requires st.next[block] in st.next
      modifies this, slBitmap, blocks
      ensures Rep() && st == MergeNext(old(st), block) && merged == block
      ensures Kept(old(st), old(mem), mem, -1)
    {
      hide Tiled, Filed, Holds, Mapped, Kept, Indexes, BlockSize, FreeBit, PrevFreeBit, CoalescedBut, Multiple8;
      merged := block;
      ReadTag(g, st, mem, block);
      NextOf(g, st, block);
      assert BlockSize(mem[block + 8]) != 0;
      var next := block + 8 + BlockSize(mem[block + 8]);
      assert next != 0;
      ReadTag(g, st, mem, next);
      if FreeBit(mem[next + 8]) {
        assert BlockSize(mem[block + 8]) != 0;
        ghost var s0, m0 := st, mem;
        BlockRemove(next, {block});
        ghost var m1 := mem;
        UnfileFiled(g, s0, {block}, next);
        assert {block} + {next} == {block, next};
        JoinFree(block, next, {block, next});
        UnfiledKept(s0, next, m0, m1, mem);
      } else {
        KeptAll(st, mem, -1);
      }
    }

    // block_absorb of a free block in hand by its free predecessor in hand.
    method JoinFree(prev: int, block: int, ghost hand: set<int>)
      requires Rep() && Physical(g, st) && Filed(st.next, st.free, st.lists, hand)
      requires prev in st.free && prev in st.next && st.next[prev] == block && block in st.free && block in hand
      modifies this`mem, this`st
      ensures Rep() && block in old(st).next && st == Join(old(st), prev)
      ensures Kept(old(st), old(mem), mem, -1)
    {
      hide Tiled, Filed, Holds, Mapped, Kept, Indexes, BlockSize, FreeBit, PrevFreeBit, Multiple8;
      NextOf(g, st, prev);
      NextOf(g, st, block);
      ReadTag(g, st, mem, prev);
      ReadTag(g, st, mem, block);
      ReadTag(g, st, mem, st.next[block]);
      SizeAligned(g, st, block);
      BlockMapped(g, st, mem, block);
      ghost var m0 := mem;
      BlockAbsorb(prev, block);
      assert JoinStores(st, m0, mem, prev);
      JoinStored(g, st, m0, mem, hand, prev);
      MappedKept(g, m0, mem);
      st := Join(st, prev);
    }

    // block_trim_used: cut the tail off a used block; it joins a free successor.
    method BlockTrimUsed(block: int, size: int)
      requires Valid() && Freeable(g, st, block) && Multiple8(size) && size >= 0
      requires size < BLOCK_SIZE_MIN ==> !CanSplit(st, block, size)
      requires st.next[block] in st.next
      modifies this, slBitmap, blocks
      ensures Valid() && st == TrimUsed(old(st), block, size)
      ensures Kept(old(st), old(mem), mem, block)
      ensures block in st.next && PayloadKept(old(mem), mem, block, st.next[block])
    {
      hide Tiled, Filed, Holds, Mapped, Kept, Indexes, BlockSize, FreeBit, PrevFreeBit, CoalescedBut, Multiple8;
      hide Coalesced, PayloadKept, PrevIsUsed;
      ReadTag(g, st, mem, block);
      assert !FreeBit(mem[block + 8]);
      if BlockSize(mem[block + 8]) >= BLOCK_HEADER_SIZE + size {
        TrimUsedInv(g, st, block, size);
        ghost var m0, s0, r := mem, st, block + size + 8;
        CutSpot(g, st, mem, block, size);
        CutUsedHolding(g, st, block, r);
        var remaining := CutOffUsed(block, size);
        ghost var m1, s1 := mem, st;
        NextIsBlock(g, st, r);
        MergeNextHolding(g, st, r);
        MergeNextStays(g, st, r);
        remaining := BlockMergeNext(remaining);
        ghost var m2, s2 := mem, st;
        BlockInsert(remaining, {remaining});
        TrimmedKept(g, s0, s1, s2, m0, m1, m2, mem, block, r);
      } else {
        KeptAll(st, mem, block);
        SamePayload(mem, block, st.next[block]);
      }
    }

    // block_split of a used block, then block_set_prev_used on the remainder.
    method CutOffUsed(block: int, size: int) returns (remaining: int)
      requires Rep() && Physical(g, st) && Filed(st.next, st.free, st.lists, {})
      requires Freeable(g, st, block) && CanSplit(st, block, size)
      requires Multiple8(size) && size >= BLOCK_SIZE_MIN
      modifies this`mem, this`st
      ensures remaining == block + size + 8 && Rep() && st == Cut(old(st), block, remaining)
      ensures Kept(old(st), old(mem), mem, block) && PayloadKept(old(mem), mem, block, remaining)
    {
      hide Tiled, Filed, Holds, Mapped, Kept, Indexes, BlockSize, FreeBit, PrevFreeBit, Multiple8, PayloadKept;
      ReadTag(g, st, mem, block);
      ghost var m0, s0, r := mem, st, block + size + 8;
      CutSpot(g, st, mem, block, size);
      remaining := BlockSplit(block, size);
      CutOfUsed(st, m0, mem, block, r);
      CutSizes(m0, mem, block, r, s0);
      hide SplitStores;
      mem := mem[remaining + 8 := SetPrevUsed(mem[remaining + 8])];
      CutStored(g, s0, m0, mem, {}, block, r);
      CutKeepsPayload(s0, m0, mem, block, r);
      hide CutStores;
      MappedKept(g, m0, mem);
      st := Cut(st, block, r);
    }

    // realloc's expansion: block_merge_next on a used block, then
    // block_mark_as_used.
    method GrowIntoNext(block: int)
      requires Valid() && Freeable(g, st, block) && st.next[block] in st.next && st.next[block] in st.free
      modifies this, slBitmap, blocks
      ensures Valid() && st == Grow(old(st), block)
      ensures Kept(old(st), old(mem), mem, -1)
    {
      hide Tiled, Filed, Holds, Mapped, Kept, Indexes, BlockSize, FreeBit, PrevFreeBit, Multiple8, Coalesced;
      GrowInv(g, st, block);
      ReadTag(g, st, mem, block);
      NextOf(g, st, block);
      var next := block + 8 + BlockSize(mem[block + 8]);
      ReadTag(g, st, mem, next);
      assert FreeBit(mem[next + 8]) && BlockSize(mem[block + 8]) != 0;
      ghost var s0, m0 := st, mem;
      UnfileFiled(g, st, {}, next);
      assert {} + {next} == {next};
      BlockRemove(next, {});
      ghost var m1 := mem;
      JoinUsed(block, next);
      UnfiledKept(s0, next, m0, m1, mem);
    }

    method JoinUsed(prev: int, block: int)
      requires Rep() && Physical(g, st) && Filed(st.next, st.free, st.lists, {block})
      requires Freeable(g, st, prev) && st.next[prev] == block && block in st.free
      modifies this`mem, this`st
      ensures Rep() && block in old(st).next && st == Join(old(st), prev)
      ensures Kept(old(st), old(mem), mem, -1)
    {
      hide Tiled, Filed, Holds, Mapped, Kept, Indexes, BlockSize, FreeBit, PrevFreeBit, Multiple8;
      NextOf(g, st, prev);
      NextOf(g, st, block);
      ReadTag(g, st, mem, prev);
      ReadTag(g, st, mem, block);
      ReadTag(g, st, mem, st.next[block]);
      SizeAligned(g, st, block);
      BlockMapped(g, st, mem, block);
      ghost var m0, s0 := mem, st;
      BlockAbsorb(prev, block);
      ghost var m1 := mem;
      BlockMarkAsUsed(prev);
      JoinOfUsed(st, m0, m1, mem, prev);
      JoinStored(g, s0, m0, mem, {block}, prev);
      MappedKept(g, m0, mem);
      st := Join(st, prev);
    }

    // ---- Finding a block ----

    // The bitmap search finds what a scan over the lists would find first.
    method SearchSuitableBlock(fl0: int, sl0: int) returns (block: int, fl: int, sl: int)
      requires Rep() && Physical(g, st) && Filed(st.next, st.free, st.lists, {})
      requires 0 <= fl0 < FL_INDEX_COUNT && 0 <= sl0 < SL_INDEX_COUNT
      ensures block == 0 <==> FirstFrom(st.lists, 32 * fl0 + sl0) == CLASS_COUNT
      ensures block != 0 ==>
        && 0 <= fl < FL_INDEX_COUNT && 0 <= sl < SL_INDEX_COUNT
        && 32 * fl + sl == FirstFrom(st.lists, 32 * fl0 + sl0)
        && block == FirstOf(st.lists, 32 * fl + sl)
    {
      hide Tiled, Filed, Holds, Mapped, Indexes, And, Shl, AllOnes, FirstFrom, Ffs, Zero, Physical;
      fl, sl := fl0, sl0;
      IndexRows(flBitmap, slBitmap[..], blocks[..], g.nul, st.lists);
      var slMap := And(slBitmap[fl], Shl(AllOnes(), sl));
      if slMap == Zero() {
        var flMap := And(flBitmap, Shl(AllOnes(), fl + 1));
        if flMap == Zero() {
          NotFound(flBitmap, slBitmap[..], blocks[..], g.nul, st.lists, fl0, sl0);
          return 0, fl, sl;
        }
        FoundInLaterRow(flBitmap, slBitmap[..], blocks[..], g.nul, st.lists, fl0, sl0);
        fl := Ffs(flMap);
        slMap := slBitmap[fl];
      } else {
        FoundInRow(flBitmap, slBitmap[..], blocks[..], g.nul, st.lists, fl0, sl0);
      }
      assert slMap != Zero();
      sl := Ffs(slMap);
      assert 32 * fl + sl == FirstFrom(st.lists, 32 * fl0 + sl0);
      block := blocks[32 * fl + sl];
      HeadIs(flBitmap, slBitmap[..], blocks[..], g.nul, st.lists, 32 * fl + sl);
      FoundNonEmpty(st.lists, 32 * fl0 + sl0, 32 * fl + sl);
      HeadNonNull(g, st, {}, 32 * fl + sl);
    }

    // block_locate_free: take a large enough block out of its list.
    method BlockLocateFree(size: int) returns (block: int)
      requires Valid() && size >= 0 && Multiple8(size) && size < BLOCK_SIZE_MAX
      modifies this, slBitmap, blocks
      ensures Rep() && Kept(old(st), old(mem), mem, -1)
      ensures Found(old(st).lists, size) == CLASS_COUNT ==> block == 0 && st == old(st) && mem == old(mem)
      ensures Found(old(st).lists, size) < CLASS_COUNT ==>
        && block == FirstOf(old(st).lists, Found(old(st).lists, size))
        && st == Take(old(st), Found(old(st).lists, size)) && block != 0
    {
      hide Tiled, Filed, Holds, Mapped, Indexes, FirstFrom, Class, SearchSize, MappingInsert, Kept, Multiple8;
      hide BlockSize, Coalesced, CoalescedBut;
      block := 0;
      var fl, sl := 0, 0;
      if size != 0 {
        MappingInsertIsClass(SearchSize(size));
        var (fl0, sl0) := MappingSearch(size);
        fl, sl := fl0, sl0;
        if fl < FL_INDEX_COUNT {
          block, fl, sl := SearchSuitableBlock(fl, sl);
        }
      }
      if block != 0 {
        TakeHolding(g, st, size);
        ReadTag(g, st, mem, block);
        assert BlockSize(mem[block + 8]) >= size;
        ClassInRange(g, st, block);
        RemoveFreeBlock(block, fl, sl, {});
      } else {
        KeptAll(st, mem, -1);
      }
    }

    // block_prepare_used: trim the block to size and hand it out.
    method BlockPrepareUsed(block: int, size: int) returns (p: int)
      requires Rep() && Physical(g, st)
      requires block != 0 ==>
        && Holding(g, st, block) && block in st.next && st.next[block] !in st.free
        && Multiple8(size) && size >= BLOCK_SIZE_MIN
      modifies this, slBitmap, blocks
      ensures Rep() && Kept(old(st), old(mem), mem, -1)
      ensures block == 0 ==> p == 0 && st == old(st) && mem == old(mem)
      ensures block != 0 ==> p == block + 16 && st == Use(TrimFree(old(st), block, size), block)
    {
      hide Tiled, Filed, Holds, Mapped, Indexes, Kept, Multiple8, BlockSize, FreeBit, PrevFreeBit, CoalescedBut;
      p := 0;
      if block != 0 {
        assert size != 0;
        ghost var s0, m0 := st, mem;
        TrimFreeHolding(g, st, block, size);
        TrimStaysUsed(g, st, block, size);
        BlockTrimFree(block, size);
        ghost var s1, m1 := st, mem;
        hide TrimFree;
        NextOf(g, st, block);
        BlockMapped(g, st, mem, block);
        ReadTag(g, st, mem, block);
        ReadTag(g, st, mem, st.next[block]);
        BlockMarkAsUsed(block);
        assert MarkStores(s1, m1, mem, block, false);
        UseStored(g, s1, m1, mem, block);
        AllPayloadsKept(s1, m1, mem, block);
        KeptTrans(s0, s1, m0, m1, mem, -1);
        MappedKept(g, m1, mem);
        st := Use(st, block);
        p := block + 16;
      } else {
        KeptAll(st, mem, -1);
      }
    }

    // ---- The interface ----

    method Malloc(size: nat) returns (p: int)
      requires Valid() && size < SIZE_T_RANGE
      modifies this, slBitmap, blocks
      ensures Valid() && (st, p) == HeapCalls.Malloc(g, old(st), size)
      ensures Kept(old(st), old(mem), mem, -1)
      ensures p == 0 ==> mem == old(mem)
    {
      hide Tiled, Filed, Holds, Mapped, Indexes, Kept, Multiple8, Coalesced, CoalescedBut, AdjustRequestSize, TrimFree;
      AdjustIsAligned(size);
      AlignmentTest(1);
      assert BitAnd(ALIGN_SIZE, ALIGN_SIZE - 1) == 0;
      MallocInv(g, st, size);
      var adjust := AdjustRequestSize(size, ALIGN_SIZE);
      assert adjust == 0 ==> Found(st.lists, adjust) == CLASS_COUNT;
      hide Found;
      ghost var s0, m0 := st, mem;
      if Found(st.lists, adjust) < CLASS_COUNT { TakeHolding(g, st, adjust); }
      var block := BlockLocateFree(adjust);
      ghost var s1, m1 := st, mem;
      p := BlockPrepareUsed(block, adjust);
      KeptTrans(s0, s1, m0, m1, mem, -1);
    }

    method Memalign(align: nat, size: nat) returns (p: int)
      requires Valid() && Alignment(align) && size < SIZE_T_RANGE
      modifies this, slBitmap, blocks
      ensures Valid() && (st, p) == HeapMemalign.Memalign(g, old(st), align, size)
      ensures Kept(old(st), old(mem), mem, -1)
      ensures p == 0 ==> mem == old(mem)
    {
      hide Tiled, Filed, Holds, Mapped, Indexes, Kept, Multiple8, Coalesced, CoalescedBut, AdjustRequestSize;
      hide TrimFree, AlignUp, AlignedFrom, Gap, LegalGap, Asked;
      WantedIsAligned(align, size);
      MemalignInv(g, st, align, size);
      ghost var want := AlignedRequest(align, size);
      AlignmentTest(align);
      assert BitAnd(align, align - 1) == 0 && BitAnd(ALIGN_SIZE, ALIGN_SIZE - 1) == 0;
      assert GAP_MINIMUM == BLOCK_SIZE_MIN + BLOCK_HEADER_OVERHEAD;
      var adjust := AdjustRequestSize(size, ALIGN_SIZE);
      var sizeWithGap := AdjustRequestSize((adjust + align + GAP_MINIMUM) % SIZE_T_RANGE, align);
      var alignedSize := if adjust != 0 && align > ALIGN_SIZE then sizeWithGap else adjust;
      assert alignedSize == want && (want == 0 ==> Found(st.lists, want) == CLASS_COUNT);
      hide Found, AlignedRequest;
      ghost var s0, m0 := st, mem;
      if Found(st.lists, want) < CLASS_COUNT {
        ghost var c, a, s, w := MemalignFrom(g, st, align, size);
      }
      var block := BlockLocateFree(alignedSize);
      ghost var s1, m1 := st, mem;
      if block != 0 {
        block := PlaceAligned(block, align, adjust);
      } else {
        KeptAll(st, mem, -1);
      }
      KeptTrans(s0, s1, m0, m1, mem, -1);
      ghost var s2, m2 := st, mem;
      p := BlockPrepareUsed(block, adjust);
      KeptTrans(s0, s2, m0, m2, mem, -1);
    }

    // The part of tlsf_memalign that moves from the block found to the aligned
    // block inside it.
    method PlaceAligned(block: nat, align: nat, ghost s: nat) returns (placed: int)
      requires Rep() && Holding(g, st, block) && block in st.next && st.next[block] !in st.free
      requires Coalesced(st.next, st.free) && align > 0 && LegalGap(Gap(block + 16, align))
      modifies this, slBitmap, blocks
      ensures Rep() && Holding(g, st, placed) && placed in st.next && st.next[placed] !in st.free
      ensures block in old(st).next && placed > 0
      ensures AlignedFrom(old(st), block, align, s) == (Use(TrimFree(st, placed, s), placed), placed + 16)
      ensures Kept(old(st), old(mem), mem, -1) && StaysUsed(old(st), st, -1)
    {
      hide Tiled, Filed, Holds, Mapped, Indexes, Kept, Multiple8, Coalesced, CoalescedBut, TrimFree, AlignUp;
      BlocksPositive(g, st);
      placed := block;
      var ptr := block + 16;
      var aligned := AlignUp(ptr, align);
      var gap := (aligned - ptr) % SIZE_T_RANGE;
      if gap != 0 && gap < GAP_MINIMUM {
        var gapRemain := GAP_MINIMUM - gap;
        var offset := Max(gapRemain, align);
        var nextAligned := (aligned + offset) % SIZE_T_RANGE;
        aligned := AlignUp(nextAligned, align);
        gap := (aligned - ptr) % SIZE_T_RANGE;
      }
      assert gap == Gap(block + 16, align);
      hide Gap;
      if gap != 0 {
        assert gap >= GAP_MINIMUM;
        LeadingReady(g, st, block, gap);
        LeadingStays(g, st, block, gap);
        placed := BlockTrimFreeLeading(block, gap);
      } else {
        KeptAll(st, mem, -1);
      }
    }

    // Address 0 is NULL, which tlsf_free ignores.
    method Free(ptr: int)
      requires Valid() && (ptr != 0 ==> Freeable(g, st, ptr - 16))
      modifies this, slBitmap, blocks
      ensures Valid()
      ensures ptr == 0 ==> st == old(st) && mem == old(mem)
      ensures ptr != 0 ==> st == HeapCalls.Free(g, old(st), ptr - 16)
      ensures Kept(old(st), old(mem), mem, ptr - 16)
    {
      hide Tiled, Filed, Holds, Mapped, Indexes, Kept, Multiple8, Coalesced, CoalescedBut;
      hide BlockSize, FreeBit, PrevFreeBit, MergePrev, MergeNext;
      if ptr != 0 {
        var block := ptr - 16;
        ghost var s0, m0 := st, mem;
        FreeInv(g, st, block);
        MarkHolding(g, st, block);
        NextOf(g, st, block);
        BlockMapped(g, st, mem, block);
        ReadTag(g, st, mem, block);
        ReadTag(g, st, mem, st.next[block]);
        assert !FreeBit(mem[block + 8]);
        BlockMarkAsFree(block);
        FreeStored(g, s0, m0, mem, block);
        MappedKept(g, m0, mem);
        st := st.(free := st.free + {block});
        ghost var s1, m1 := st, mem;
        MergePrevHolding(g, st, block);
        MergePrevStays(g, st, block);
        block := BlockMergePrev(block);
        ghost var s2, m2 := st, mem;
        MergeNextHolding(g, st, block);
        MergeNextStays(g, st, block);
        block := BlockMergeNext(block);
        ghost var s3, m3 := st, mem;
        BlockInsert(block, {block});
        BlocksPositive(g, s0);
        FreedKept(s0, s1, s2, s3, m0, m1, m2, m3, mem, ptr - 16);
      } else {
        KeptAll(st, mem, ptr - 16);
      }
    }

    // The owner of a block stores a word in its payload.
    method Store(ptr: int, address: int, value: int)
      requires Valid() && Freeable(g, st, ptr - 16)
      requires ptr <= address < st.next[ptr - 16] + 8 && Multiple8(address)
      modifies this`mem
      ensures Valid() && mem == old(mem)[address := value]
      ensures Kept(st, old(mem), mem, ptr - 16)
    {
      hide Tiled, Filed, Holds, Mapped, Kept, Indexes, Coalesced;
      NextOf(g, st, ptr - 16);
      MappedAt(g, mem, address);
      OwnerStores(g, st, mem, mem[address := value], ptr - 16, {address});
      MappedKept(g, mem, mem[address := value]);
      mem := mem[address := value];
    }

    // memcpy between the payloads of two live blocks.
    method Memcpy(dst: int, src: int, n: nat)
      requires Valid()
      requires Freeable(g, st, dst - 16) && Freeable(g, st, src - 16) && dst != src
      requires n <= Size(st.next, dst - 16) && n <= Size(st.next, src - 16)
      modifies this`mem
      ensures Valid() && Kept(st, old(mem), mem, dst - 16)
      ensures Copied(old(mem), src, mem, dst, n)
    {
      hide Tiled, Filed, Holds, Kept, Indexes, Coalesced, Copied, Mapped, Multiple8;
      PayloadMapped(g, st, mem, dst - 16);
      PayloadMapped(g, st, mem, src - 16);
      PayloadsApart(g, st, dst - 16, src - 16);
      var m := CopyBytes(mem, dst, src, n);
      ghost var w := set x | x in mem.Keys && dst <= x < dst + n;
      OwnerStores(g, st, mem, m, dst - 16, w);
      MappedKept(g, mem, m);
      mem := m;
    }

    method Realloc(ptr: int, size: nat) returns (p: int)
      requires Valid() && size < SIZE_T_RANGE && (ptr != 0 ==> Freeable(g, st, ptr - 16))
      requires ptr != 0 && size != 0 ==> Resizable(st, ptr - 16, size)
      modifies this, slBitmap, blocks
      ensures Valid() && (st, p) == HeapRealloc.Realloc(g, old(st), ptr, size)
      ensures Kept(old(st), old(mem), mem, ptr - 16)
      ensures ptr != 0 && size != 0 && p == 0 ==> st == old(st) && mem == old(mem)
      ensures ptr != 0 && size != 0 && p != 0 ==> PrefixCopied(old(st), old(mem), ptr, st, mem, p, size)
    {
      hide Tiled, Filed, Holds, Mapped, Kept, Indexes, Coalesced, AdjustRequestSize, Multiple8, PrefixCopied;
      hide HeapCalls.Malloc, HeapCalls.Free, Resize;
      p := 0;
      if ptr != 0 && size == 0 {
        Free(ptr);
      } else if ptr == 0 {
        BlocksPositive(g, st);
        p := Malloc(size);
        KeptExcept(g, old(st), old(mem), mem, ptr - 16);
      } else {
        p := ResizeBlock(ptr, size);
      }
    }

    // tlsf_realloc of a live block to a non-zero size.
    method ResizeBlock(ptr: int, size: nat) returns (p: int)
      requires Valid() && 0 < size < SIZE_T_RANGE && Freeable(g, st, ptr - 16)
      requires Resizable(st, ptr - 16, size)
      modifies this, slBitmap, blocks
      ensures Valid() && ResizeOutcome(g, old(st), old(mem), ptr, size, st, mem, p)
    {
      hide Tiled, Filed, Holds, Mapped, Kept, Indexes, Coalesced, AdjustRequestSize, Multiple8, Copied;
      hide HeapCalls.Malloc, HeapCalls.Free, BlockSize, FreeBit, PrevFreeBit, TrimUsed, Grow, PayloadKept, Move;
      var block := ptr - 16;
      NextIsBlock(g, st, block);
      AboveZero(g, st, block);
      PayloadMapped(g, st, mem, block);
      ReadTag(g, st, mem, block);
      NextOf(g, st, block);
      assert BlockSize(mem[block + 8]) != 0;
      var next := block + 8 + BlockSize(mem[block + 8]);
      ReadTag(g, st, mem, next);
      var cursize := BlockSize(mem[block + 8]);
      var combined := cursize + BlockSize(mem[next + 8]) + BLOCK_HEADER_OVERHEAD;
      var adjust := AdjustRequestSize(size, ALIGN_SIZE);
      AdjustIsAligned(size);
      assert !FreeBit(mem[block + 8]);
      if adjust > cursize && (!FreeBit(mem[next + 8]) || adjust > combined) {
        p := MoveBlock(ptr, size, cursize);
      } else {
        ghost var s0, m0 := st, mem;
        if adjust > cursize {
          GrowBlock(block, adjust);
          RequestFits(size);
          KeptIsCopied(m0, mem, block, s0.next[block], ContentsKept(s0, block, st, block, size));
        } else {
          TrimToRequest(g, st, block, adjust);
          BlockTrimUsed(block, adjust);
          RequestFits(size);
          KeptIsCopied(m0, mem, block, st.next[block], ContentsKept(s0, block, st, block, size));
        }
        p := ptr;
      }
    }

    // Expand into the free successor, then trim.
    method GrowBlock(block: int, adjust: int)
      requires Valid() && Freeable(g, st, block) && Multiple8(adjust) && adjust >= BLOCK_SIZE_MIN
      requires st.next[block] in st.next && InPlace(st, block, adjust) && adjust > Size(st.next, block)
      modifies this, slBitmap, blocks
      ensures Valid() && st == Reshape(g, old(st), block, adjust) && block in st.next
      ensures Kept(old(st), old(mem), mem, block)
      ensures PayloadKept(old(mem), mem, block, old(st).next[block])
    {
      hide Tiled, Filed, Holds, Mapped, Kept, Indexes, Coalesced, Multiple8, TrimUsed, Grow, PayloadKept;
      ghost var s0, m0 := st, mem;
      GrowUsed(g, st, block);
      GrowIntoNext(block);
      ghost var s1, m1 := st, mem;
      TrimUsedHandsOut(g, s1, block, adjust);
      BlockTrimUsed(block, adjust);
      GrownKept(g, s0, s1, m0, m1, mem, block, st.next[block]);
    }

    // realloc's last resort: allocate, copy, free.
    method MoveBlock(ptr: int, size: nat, cursize: int) returns (p: int)
      requires size < SIZE_T_RANGE && AdjustRequestSize(size, ALIGN_SIZE) > cursize
      requires Valid() && Freeable(g, st, ptr - 16) && cursize == Size(st.next, ptr - 16)
      modifies this, slBitmap, blocks
      ensures Valid() && MoveOutcome(g, old(st), old(mem), ptr, size, st, mem, p)
    {
      hide Tiled, Filed, Holds, Mapped, Kept, Indexes, Coalesced, AdjustRequestSize, Multiple8, Copied;
      hide HeapCalls.Malloc, HeapCalls.Free, PayloadKept, BlockSize;
      var block := ptr - 16;
      ghost var s0, m0 := st, mem;
      BlocksPositive(g, st);
      NextOf(g, st, block);
      MallocInv(g, st, size);
      PayloadMapped(g, st, mem, block);
      p := Malloc(size);
      if p != 0 {
        ghost var s1, m1 := st, mem;
        MoveFreeable(g, s0, block, size);
        MallocHandsOut(g, s0, size);
        KeptOne(s0, m0, m1, -1, block);
        var minsize := Min(cursize, size);
        Memcpy(p, ptr, minsize);
        ghost var m2 := mem;
        CopyOfKept(m0, m1, block, s0.next[block], m2, p, minsize);
        Free(ptr);
        MovedKept(g, s0, s1, m0, m1, m2, mem, p - 16, block, AdjustRequestSize(size, ALIGN_SIZE));
        MovedLive(g, s0, s1, p - 16, block, AdjustRequestSize(size, ALIGN_SIZE));
        RequestFits(size);
        ZeroTrim(g, s0, block);
        CopySurvives(m0, ptr, m2, mem, p - 16, s1.next[p - 16], minsize);
      } else {
        KeptExcept(g, s0, m0, mem, block);
      }
    }

    // ---- Integrity checks ----

    // tlsf_check: bitmaps against lists, and every listed block against its
    // neighbours. Each assertion is one that the original makes.
    method Check() returns (status: int, ghost seen: Lists)
      requires Valid()
      ensures status == 0
      ensures seen == st.lists
    {
      hide Inv, Holds, Mapped, Indexes;
      IndexRows(flBitmap, slBitmap[..], blocks[..], g.nul, st.lists);
      status, seen := 0, [];
      var i := 0;
      while i < FL_INDEX_COUNT
        invariant 0 <= i <= FL_INDEX_COUNT && status == 0
        invariant |seen| == 32 * i && seen == st.lists[..32 * i]
      {
        var j := 0;
        while j < SL_INDEX_COUNT
          invariant 0 <= j <= SL_INDEX_COUNT && status == 0
          invariant |seen| == 32 * i + j && seen == st.lists[..32 * i + j]
        {
          ghost var list;
          status, list := CheckList(i, j, status);
          assert st.lists[..32 * i + j] + [st.lists[32 * i + j]] == st.lists[..32 * i + j + 1];
          seen := seen + [list];
          j := j + 1;
        }
        i := i + 1;
      }
      assert st.lists[..CLASS_COUNT] == st.lists;
    }

    // One list: its two bits, its head, and its blocks up to block_null.
    method CheckList(i: int, j: int, status0: int) returns (status: int, ghost seen: seq<int>)
      requires Valid() && 0 <= i < FL_INDEX_COUNT && 0 <= j < SL_INDEX_COUNT
      ensures status == status0 && |st.lists| == CLASS_COUNT && seen == st.lists[32 * i + j]
    {
      hide Inv, Holds, Mapped, Indexes, And, Shl, One, BlockSize, FreeBit, PrevFreeBit, MappingInsert;
      status, seen := status0, [];
      IndexRows(flBitmap, slBitmap[..], blocks[..], g.nul, st.lists);
      ListBits(flBitmap, slBitmap[..], blocks[..], g.nul, st.lists, i, j);
      ghost var l := st.lists[32 * i + j];
      var flMap := And(flBitmap, Shl(One(), i));
      var slList := slBitmap[i];
      var slMap := And(slList, Shl(One(), j));
      var block := blocks[32 * i + j];
      if flMap == Zero() {
        assert slMap == Zero();
        status := Insist(status, slMap == Zero());
      }
      if slMap == Zero() {
        assert block == g.nul;
        status := Insist(status, block == g.nul);
        return;
      }
      assert slList != Zero();
      status := Insist(status, slList != Zero());
      ghost var k := 0;
      ListedNotNull(g, st, 32 * i + j);
      assert block != g.nul;
      status := Insist(status, block != g.nul);
      while block != g.nul
        invariant 0 <= k <= |l| && seen == l[..k] && status == status0
        invariant block == if k < |l| then l[k] else g.nul
        decreases |l| - k
      {
        ListedBlock(g, st, mem, 32 * i + j, k);
        assert FreeBit(mem[block + 8]);
        status := Insist(status, FreeBit(mem[block + 8]));
        assert !PrevFreeBit(mem[block + 8]);
        status := Insist(status, !PrevFreeBit(mem[block + 8]));
        assert BlockSize(mem[block + 8]) != 0;
        var next := block + 8 + BlockSize(mem[block + 8]);
        assert !FreeBit(mem[next + 8]);
        status := Insist(status, !FreeBit(mem[next + 8]));
        assert PrevFreeBit(mem[next + 8]);
        status := Insist(status, PrevFreeBit(mem[next + 8]));
        assert BlockSize(mem[block + 8]) >= BLOCK_SIZE_MIN;
        status := Insist(status, BlockSize(mem[block + 8]) >= BLOCK_SIZE_MIN);
        MappingInsertIsClass(BlockSize(mem[block + 8]));
        var (fli, sli) := MappingInsert(BlockSize(mem[block + 8]));
        assert fli == i && sli == j;
        status := Insist(status, fli == i && sli == j);
        block := mem[block + NEXT_FREE_AT];
        seen := seen + [l[k]];
        k := k + 1;
      }
    }

    // tlsf_check_pool: tlsf_walk_pool with integrity_walker, which compares each
    // previous-free bit with the free bit of the block visited before.
    method CheckPool(pool: int) returns (status: int, ghost visited: seq<int>)
      requires Valid() && pool == g.first + BLOCK_HEADER_OVERHEAD
      ensures status == 0
      ensures Physical(g, st) && visited == Walk(g.first, g.last, st.next, st.prev, g.first)
    {
      hide Inv, Holds, Mapped, Indexes, BlockSize, FreeBit, PrevFreeBit, Walk, Tiled;
      WalkReady(g, st);
      var prevFree := false;
      status, visited := 0, [];
      var block := pool - BLOCK_HEADER_OVERHEAD;
      ReadTag(g, st, mem, block);
      WalkStep(g, st, block);
      FirstHasNoPrev(g, st);
      while block != 0 && BlockSize(mem[block + 8]) != 0
        invariant Physical(g, st) && block in st.next && block + 8 in mem && status == 0
        invariant BlockSize(mem[block + 8]) == Size(st.next, block)
        invariant prevFree <==> block in st.prev && st.prev[block] in st.free
        invariant visited + WalkFrom(g, st, block) == WalkFrom(g, st, g.first)
        decreases g.last - block
      {
        WalkStep(g, st, block);
        ReadTag(g, st, mem, block);
        assert prevFree == PrevFreeBit(mem[block + 8]);
        status := Insist(status, prevFree == PrevFreeBit(mem[block + 8]));
        prevFree := FreeBit(mem[block + 8]);
        visited := visited + [block];
        NextOf(g, st, block);
        assert BlockSize(mem[block + 8]) != 0;
        block := block + 8 + BlockSize(mem[block + 8]);
        ReadTag(g, st, mem, block);
      }
      WalkStep(g, st, block);
    }
  }

  // tlsf_insist: count a failure.
  function Insist(status: int, holds: bool): (r: int)
    ensures r <= status && (r == status <==> holds)
  {
    if holds then status else status - 1
  }

  // What the two bits and the head say of list (i, j).
  lemma ListBits(fl: Word, sl: seq<Word>, heads: seq<int>, nul: int, lists: Lists, i: int, j: int)
    requires Indexes(fl, sl, heads, nul, lists) && 0 <= i < FL_INDEX_COUNT && 0 <= j < SL_INDEX_COUNT
    ensures |lists| == CLASS_COUNT && |sl| == FL_INDEX_COUNT && |heads| == CLASS_COUNT
    ensures And(sl[i], Shl(One(), j)) == Zero() <==> lists[32 * i + j] == []
    ensures And(fl, Shl(One(), i)) == Zero() ==> sl[i] == Zero() && lists[32 * i + j] == []
    ensures sl[i] == Zero() ==> lists[32 * i + j] == []
    ensures heads[32 * i + j] == HeadOf(nul, lists[32 * i + j])
  {
    BitTest(sl[i], j);
    BitTest(fl, i);
    assert RowIndexes(sl[i], lists, i);
    hide And, Shl, One;
  }

  lemma BitTest(w: Word, i: nat)
    requires i < 32
    ensures And(w, Shl(One(), i)) == Zero() <==> !w[i]
  {
    var x := And(w, Shl(One(), i));
    assert forall k :: 0 <= k < 32 ==> x[k] == (k == i && w[k]);
  }

  lemma ListedNotNull(g: Geometry, st: State, c: int)
    requires Inv(g, st) && 0 <= c < CLASS_COUNT
    ensures |st.lists| == CLASS_COUNT && forall k :: 0 <= k < |st.lists[c]| ==> st.lists[c][k] != g.nul
  {
    hide Tiled, Filed, Coalesced;
    forall k | 0 <= k < |st.lists[c]| ensures st.lists[c][k] != g.nul { InList(g, st, {}, c, k); }
  }

  // What memory says of a listed block and of the block after it.
  ghost predicate ListedWords(m: Mem, a: int, c: int, link: int) {
    && a + 8 in m && a + 16 in m && FreeBit(m[a + 8]) && !PrevFreeBit(m[a + 8])
    && BLOCK_SIZE_MIN <= BlockSize(m[a + 8]) < BLOCK_SIZE_MAX && Class(BlockSize(m[a + 8])) == c
    && m[a + 16] == link
    && var n := a + 8 + BlockSize(m[a + 8]); n + 8 in m && !FreeBit(m[n + 8]) && PrevFreeBit(m[n + 8])
  }

  lemma ListedBlock(g: Geometry, st: State, m: Mem, c: int, k: int)
    requires 0 <= c < CLASS_COUNT == |st.lists| && 0 <= k < |st.lists[c]|
    requires Inv(g, st) && Holds(g, st, m)
    ensures ListedWords(m, st.lists[c][k], c, NextLink(g.nul, st.lists[c], k))
  {
    hide Tiled, Filed, Holds, BlockSize, FreeBit, PrevFreeBit, Class;
    var a := st.lists[c][k];
    InList(g, st, {}, c, k);
    ReadTag(g, st, m, a);
    ReadLinks(g, st, m, c, k);
    NextOf(g, st, a);
    ReadTag(g, st, m, st.next[a]);
    ClassInRange(g, st, a);
    if a in st.prev { PrevOf(g, st, a); }
  }

  ghost function WalkFrom(g: Geometry, st: State, a: int): seq<int>
    requires Physical(g, st) && a in st.next
  {
    Walk(g.first, g.last, st.next, st.prev, a)
  }

  lemma WalkReady(g: Geometry, st: State)
    requires Inv(g, st)
    ensures Physical(g, st) && g.first in st.next && g.last in st.next
  {
  }

  lemma FirstHasNoPrev(g: Geometry, st: State)
    requires Physical(g, st)
    ensures g.first !in st.prev
  {
  }

  // Only the sentinel has size zero, and no block is at address zero.
  lemma WalkStep(g: Geometry, st: State, a: int)
    requires Physical(g, st) && a in st.next
    ensures a != 0 && (Size(st.next, a) == 0 <==> a == g.last)
    ensures a != g.last ==> st.next[a] in st.next && WalkFrom(g, st, a) == [a] + WalkFrom(g, st, st.next[a])
    ensures a == g.last ==> WalkFrom(g, st, a) == []
  {
    if a != g.last { NextOf(g, st, a); }
  }

  lemma EmptyIndexed(sl: seq<Word>, heads: seq<int>, nul: int)
    requires |sl| == FL_INDEX_COUNT && |heads| == CLASS_COUNT
    requires forall k :: 0 <= k < FL_INDEX_COUNT ==> sl[k] == Zero()
    requires forall k :: 0 <= k < CLASS_COUNT ==> heads[k] == nul
    ensures Indexes(Zero(), sl, heads, nul, Nothing().lists)
  {
  }

  lemma NothingFiled(c: int)
    ensures |Nothing().lists| == CLASS_COUNT
    ensures 0 <= c < CLASS_COUNT ==> Nothing().lists[c] == []
  {
  }

  // The size words tlsf_add_pool builds, one status update at a time.
  lemma FirstWord(w: int, size: int)
    requires Multiple8(size)
    ensures Says(SetPrevUsed(SetFree(SetSize(w, size))), size, true, false)
  {
    hide BlockSize, FreeBit, PrevFreeBit, SetSize, SetFree, SetPrevUsed;
    SizeUpdate(w, size);
    StatusUpdates(SetSize(w, size));
    StatusUpdates(SetFree(SetSize(w, size)));
  }

  lemma LastWord(w: int)
    ensures Says(SetPrevFree(SetUsed(SetSize(w, 0))), 0, false, true)
  {
    hide BlockSize, FreeBit, PrevFreeBit, SetSize, SetUsed, SetPrevFree;
    SizeUpdate(w, 0);
    StatusUpdates(SetSize(w, 0));
    StatusUpdates(SetUsed(SetSize(w, 0)));
  }

  lemma SumsAligned(a: int, s: int, size: int)
    requires Multiple8(a) && Multiple8(s) && Multiple8(size)
    ensures Multiple8(a + s + 24) && Multiple8(size - (s + 8)) && Multiple8(a + s + 8)
  {
  }

  lemma OverheadAligned(size: int)
    requires Multiple8(size)
    ensures Multiple8(size + 8)
  {
  }

  ghost predicate PrevLinked(st: State, a: int) {
    a in st.prev ==> st.prev[a] in st.next && st.next[st.prev[a]] == a && a in st.next
  }

  // A cut at size bytes of payload lands inside the block, on mapped words.
  lemma CutSpot(g: Geometry, st: State, m: Mem, a: int, size: int)
    requires Physical(g, st) && Mapped(g, m) && a in st.next && a != g.last
    requires Multiple8(size) && size >= BLOCK_SIZE_MIN && CanSplit(st, a, size)
    ensures var r := a + size + 8;
      && CanCut(g.last, st.next, a, r) && Multiple8(r) && r in m && r + 8 in m
      && a + 8 in m && st.next[a] in m && st.next[a] + 8 in m
      && Multiple8(a) && Multiple8(Size(st.next, a))
  {
    hide Tiled, Mapped, Multiple8;
    NextOf(g, st, a);
    BlockMapped(g, st, m, a);
    HeadersAligned(g, st, a);
    SizeAligned(g, st, a);
    SumsAligned(a, size, size);
    OverheadAligned(a + size + 8);
    MappedAt(g, m, a + size + 8);
    MappedAt(g, m, a + size + 16);
  }

  lemma LeadingPlace(g: Geometry, st: State, m: Mem, a: int, size: int)
    requires Physical(g, st) && Mapped(g, m) && a in st.next && a != g.last
    requires Multiple8(size) && size >= BLOCK_HEADER_SIZE && CanSplit(st, a, size)
    ensures var r := a + size;
      && CanCut(g.last, st.next, a, r) && Multiple8(r) && r in m && r + 8 in m
      && a + 8 in m && st.next[a] in m && st.next[a] + 8 in m
      && Multiple8(a) && Multiple8(Size(st.next, a)) && Multiple8(size - 8)
  {
    hide Tiled, Mapped;
    assert CanSplit(st, a, size - 8) && Multiple8(size - 8);
    CutSpot(g, st, m, a, size - 8);
  }

  // After the split, the size word of a still says where r is.
  lemma CutSizes(m0: Mem, m1: Mem, a: int, r: int, st: State)
    requires a in st.next && SplitStores(m0, m1, a, r, st.next[a])
    ensures a + 8 in m1 && r + 8 in m1 && BlockSize(m1[a + 8]) == r - a - 8
  {
  }

  lemma CutThenInsert(st: State, m0: Mem, m1: Mem, m2: Mem, a: int, r: int)
    requires a in st.free && a in st.next && r !in st.next && r !in st.free
    requires Kept(st, m0, m1, a) && Kept(Cut(st, a, r), m1, m2, -1)
    ensures Kept(st, m0, m2, -1)
  {
    hide Kept;
    AllPayloadsKept(st, m0, m1, a);
    assert StaysUsed(st, Cut(st, a, r), -1);
    KeptTrans(st, Cut(st, a, r), m0, m1, m2, -1);
  }

  lemma UnfiledKept(st: State, a: int, m0: Mem, m1: Mem, m2: Mem)
    requires a in st.next && |st.lists| == CLASS_COUNT
    requires Kept(st, m0, m1, -1) && Kept(Unfile(st, a), m1, m2, -1)
    ensures Kept(st, m0, m2, -1)
  {
    KeptTrans(st, Unfile(st, a), m0, m1, m2, -1);
  }

  lemma KeptAll(st: State, m: Mem, but: int)
    ensures Kept(st, m, m, but)
  {
  }

  lemma MergePrevStays(g: Geometry, st: State, a: int)
    requires Holding(g, st, a)
    ensures PrevLinked(st, a) && StaysUsed(st, MergePrev(st, a).0, -1)
  {
  }

  lemma MergeNextStays(g: Geometry, st: State, a: int)
    requires Holding(g, st, a)
    ensures a in st.next && st.next[a] in st.next && StaysUsed(st, MergeNext(st, a), -1)
  {
  }

  lemma BlocksPositive(g: Geometry, st: State)
    requires Physical(g, st)
    ensures forall a :: a in st.next ==> a > 0
    ensures -1 !in st.next
  {
  }

  // The steps of a free, one after the other.
  lemma FreedKept(s0: State, s1: State, s2: State, s3: State, m0: Mem, m1: Mem, m2: Mem, m3: Mem, m4: Mem, a: int)
    requires s1 == s0.(free := s0.free + {a}) && -1 !in s0.next
    requires StaysUsed(s1, s2, -1) && StaysUsed(s2, s3, -1)
    requires Kept(s0, m0, m1, a) && Kept(s1, m1, m2, -1) && Kept(s2, m2, m3, -1) && Kept(s3, m3, m4, -1)
    ensures Kept(s0, m0, m4, a)
  {
    KeptTrans(s2, s3, m2, m3, m4, -1);
    KeptTrans(s1, s2, m1, m2, m4, -1);
    forall b | b in s0.next && b !in s0.free && b != a ensures PayloadKept(m0, m4, b, s0.next[b]) {
      assert PayloadKept(m0, m1, b, s0.next[b]);
      assert b in s1.next && b !in s1.free;
      assert PayloadKept(m1, m4, b, s1.next[b]);
    }
  }

  // block_absorb and block_mark_as_used together are a join of a used block.
  lemma JoinOfUsed(st: State, m0: Mem, m1: Mem, m2: Mem, p: int)
    requires p in st.next && st.next[p] in st.next && p + 32 <= st.next[p] && st.next[p] + 32 <= st.next[st.next[p]]
    requires var nn := st.next[st.next[p]];
      && p + 8 in m0 && nn in m0 && nn + 8 in m0 && !FreeBit(m0[p + 8])
      && p + 8 in m1 && nn in m1 && m1[nn] == p && m1 == m0[p + 8 := m1[p + 8]][nn := p]
      && Says(m1[p + 8], nn - p - 8, FreeBit(m0[p + 8]), PrevFreeBit(m0[p + 8]))
    requires var nn := st.next[st.next[p]];
      && WritesOnly(m1, m2, {p + 8, nn + 8}) && p + 8 in m2 && nn + 8 in m2 && nn + 8 in m1
      && Says(m2[p + 8], BlockSize(m1[p + 8]), false, PrevFreeBit(m1[p + 8]))
      && Says(m2[nn + 8], BlockSize(m1[nn + 8]), FreeBit(m1[nn + 8]), false)
    ensures JoinStores(st, m0, m2, p)
  {
    hide BlockSize, FreeBit, PrevFreeBit;
  }

  lemma SamePayload(m: Mem, a: int, end: int)
    ensures PayloadKept(m, m, a, end)
  {
  }

  lemma TrimmedKept(g: Geometry, s0: State, s1: State, s2: State, m0: Mem, m1: Mem, m2: Mem, m3: Mem, a: int, r: int)
    requires Physical(g, s0) && Freeable(g, s0, a) && CanCut(g.last, s0.next, a, r) && r !in s0.next
    requires s1 == Cut(s0, a, r) && StaysUsed(s1, s2, -1)
    requires Kept(s0, m0, m1, a) && PayloadKept(m0, m1, a, r)
    requires Kept(s1, m1, m2, -1) && Kept(s2, m2, m3, -1)
    ensures Kept(s0, m0, m3, a) && PayloadKept(m0, m3, a, r)
    ensures a in s2.next && s2.next[a] == r
  {
    hide Tiled, PayloadKept;
    BlocksPositive(g, s0);
    hide Physical;
    KeptTrans(s1, s2, m1, m2, m3, -1);
    assert a in s1.next && a !in s1.free && s1.next[a] == r && a != -1;
    PayloadKeptTwice(m0, m1, m3, a, r);
    forall b | b in s0.next && b !in s0.free && b != a ensures PayloadKept(m0, m3, b, s0.next[b]) {
      assert b in s1.next && b !in s1.free && s1.next[b] == s0.next[b] && b != -1;
      PayloadKeptTwice(m0, m1, m3, b, s0.next[b]);
    }
  }

  // These bytes have moved from ptr to p.
  ghost predicate PrefixCopied(s0: State, m: Mem, ptr: int, s1: State, m': Mem, p: int, size: nat) {
    && ptr - 16 in s0.next && p - 16 in s1.next
    && Copied(m, ptr, m', p, ContentsKept(s0, ptr - 16, s1, p - 16, size))
  }

  // What a call that moves or resizes a block leaves: the abstract result, every
  // other payload, and the contents, unless it failed and left all as it was.
  ghost predicate MoveOutcome(g: Geometry, s0: State, m0: Mem, ptr: int, size: nat, s1: State, m1: Mem, p: int) {
    && Inv(g, s0) && Freeable(g, s0, ptr - 16) && (s1, p) == Move(g, s0, ptr - 16, size)
    && Kept(s0, m0, m1, ptr - 16)
    && if p == 0 then s1 == s0 && m1 == m0 else PrefixCopied(s0, m0, ptr, s1, m1, p, size)
  }

  ghost predicate ResizeOutcome(g: Geometry, s0: State, m0: Mem, ptr: int, size: nat, s1: State, m1: Mem, p: int) {
    && Inv(g, s0) && Freeable(g, s0, ptr - 16) && (s1, p) == Resize(g, s0, ptr - 16, size)
    && Kept(s0, m0, m1, ptr - 16)
    && if p == 0 then s1 == s0 && m1 == m0 else PrefixCopied(s0, m0, ptr, s1, m1, p, size)
  }

  lemma KeptExcept(g: Geometry, st: State, m: Mem, m': Mem, but: int)
    requires Physical(g, st) && Kept(st, m, m', -1)
    ensures Kept(st, m, m', but)
  {
  }

  lemma KeptOne(st: State, m: Mem, m': Mem, but: int, a: int)
    requires Kept(st, m, m', but) && Used(st, a) && a != but
    ensures PayloadKept(m, m', a, st.next[a])
  {
  }

  // Every payload word of a block exists.
  lemma PayloadMapped(g: Geometry, st: State, m: Mem, a: int)
    requires Physical(g, st) && Mapped(g, m) && a in st.next && a != g.last
    ensures forall x {:trigger Multiple8(x)} :: 0 <= x < Size(st.next, a) && Multiple8(x) ==> a + 16 + x in m
  {
    hide Tiled, Mapped, Multiple8;
    NextOf(g, st, a);
    HeadersAligned(g, st, a);
    forall x | 0 <= x < Size(st.next, a) && Multiple8(x) ensures a + 16 + x in m {
      SumAligned8(a + 16, x);
      MappedAt(g, m, a + 16 + x);
    }
  }

  lemma SumAligned8(x: int, y: int)
    requires Multiple8(x) && Multiple8(y)
    ensures Multiple8(x + y)
  {
  }

  lemma PayloadsApart(g: Geometry, st: State, a: int, b: int)
    requires Physical(g, st) && a in st.next && b in st.next && a != b
    ensures st.next[a] + 8 <= b + 16 || st.next[b] + 8 <= a + 16
  {
  }

  lemma RequestFits(size: nat)
    requires size < SIZE_T_RANGE
    ensures size <= SIZE_T_RANGE - 8 && AdjustRequestSize(size, ALIGN_SIZE) != 0 ==>
      size <= AdjustRequestSize(size, ALIGN_SIZE)
    ensures size > SIZE_T_RANGE - 8 ==> AdjustRequestSize(size, ALIGN_SIZE) == BLOCK_SIZE_MIN
  {
    AdjustHonoursRequestIff(size);
    if size <= SIZE_T_RANGE - 8 { AdjustedRequest(size); }
  }

  // Trimming a used block to a request that is zero, or that it holds.
  lemma TrimToRequest(g: Geometry, st: State, a: int, s: int)
    requires Inv(g, st) && Freeable(g, st, a) && Multiple8(s) && 0 <= s <= Size(st.next, a)
    requires s == 0 ==> Size(st.next, a) < BLOCK_HEADER_SIZE
    requires s != 0 ==> s >= BLOCK_SIZE_MIN
    ensures st.next[a] in st.next && a in TrimUsed(st, a, s).next
    ensures Min(Size(st.next, a), s) <= Size(TrimUsed(st, a, s).next, a) <= Size(st.next, a)
    ensures s == 0 ==> TrimUsed(st, a, s) == st
  {
    hide Tiled, Filed, Coalesced;
    if s == 0 {
      ZeroTrim(g, st, a);
    } else {
      TrimUsedHandsOut(g, st, a, s);
    }
  }

  // Growing, then trimming: the old payload is a prefix of the new one.
  lemma GrownKept(g: Geometry, s0: State, s1: State, m0: Mem, m1: Mem, m2: Mem, a: int, end: int)
    requires Physical(g, s0) && Freeable(g, s0, a) && s0.next[a] in s0.next && s0.next[a] in s0.free
    requires s1 == Grow(s0, a) && Kept(s0, m0, m1, -1) && Kept(s1, m1, m2, a)
    requires PayloadKept(m1, m2, a, end) && s0.next[a] <= end
    ensures Kept(s0, m0, m2, a) && PayloadKept(m0, m2, a, s0.next[a])
  {
    hide Tiled, PayloadKept;
    BlocksPositive(g, s0);
    hide Physical;
    KeptOne(s0, m0, m1, -1, a);
    KeptPrefix(m1, m2, a, s0.next[a], end);
    PayloadKeptTwice(m0, m1, m2, a, s0.next[a]);
    forall b | b in s0.next && b !in s0.free && b != a ensures PayloadKept(m0, m2, b, s0.next[b]) {
      KeptOne(s0, m0, m1, -1, b);
      assert Used(s1, b) && s1.next[b] == s0.next[b];
      KeptOne(s1, m1, m2, a, b);
      PayloadKeptTwice(m0, m1, m2, b, s0.next[b]);
    }
  }

  lemma KeptPrefix(m: Mem, m': Mem, a: int, end: int, end': int)
    requires PayloadKept(m, m', a, end') && end <= end'
    ensures PayloadKept(m, m', a, end)
  {
  }

  // Allocating, copying, freeing: every other block is kept, and so is the copy.
  lemma MovedKept(g: Geometry, s0: State, s1: State, m0: Mem, m1: Mem, m2: Mem, m3: Mem, b: int, a: int, s: int)
    requires Physical(g, s0) && b in s0.free && HandedOut(s0, s1, b, s) && a != b
    requires Kept(s0, m0, m1, -1) && Kept(s1, m1, m2, b) && Kept(s1, m2, m3, a)
    ensures Kept(s0, m0, m3, a) && PayloadKept(m2, m3, b, s1.next[b])
  {
    BlocksPositive(g, s0);
    KeptOne(s1, m2, m3, a, b);
    forall c | c in s0.next && c !in s0.free && c != a ensures PayloadKept(m0, m3, c, s0.next[c]) {
      assert c in Live(s0) && c in Live(s1) && Live(s1)[c] == s0.next[c];
      KeptOne(s0, m0, m1, -1, c);
      KeptOne(s1, m1, m2, b, c);
      KeptOne(s1, m2, m3, a, c);
    }
  }

  function FirstOf(lists: Lists, c: int): int {
    if 0 <= c < |lists| && lists[c] != [] then lists[c][0] else 0
  }

  lemma IndexRows(fl: Word, sl: seq<Word>, heads: seq<int>, nul: int, lists: Lists)
    requires Indexes(fl, sl, heads, nul, lists)
    ensures |sl| == FL_INDEX_COUNT && |heads| == CLASS_COUNT && |lists| == CLASS_COUNT
  {
  }

  lemma FoundNonEmpty(lists: Lists, c: int, k: int)
    requires 0 <= c <= |lists| && FirstFrom(lists, c) == k < |lists|
    ensures k >= c && lists[k] != []
  {
  }

  lemma LeadingStays(g: Geometry, st: State, a: int, gap: int)
    requires Physical(g, st) && a in st.next && a in st.free
    ensures gap >= BLOCK_HEADER_SIZE ==> StaysUsed(st, TrimLeading(st, a, gap).0, -1)
  {
    if gap >= BLOCK_HEADER_SIZE && CanSplit(st, a, gap) { NotABlock(g, st, a, a + gap); }
  }

  lemma TrimStaysUsed(g: Geometry, st: State, a: int, s: int)
    requires Physical(g, st) && a in st.next && a in st.free && s >= BLOCK_SIZE_MIN
    ensures StaysUsed(st, TrimFree(st, a, s), -1)
  {
    if CanSplit(st, a, s) { NotABlock(g, st, a, a + s + 8); }
  }

  // Where a filed block is in its list.
  lemma PositionInList(g: Geometry, st: State, hand: set<int>, a: int) returns (i: int)
    requires Physical(g, st) && Filed(st.next, st.free, st.lists, hand)
    requires a in st.free && a !in hand && a in st.next
    ensures 0 <= i < |st.lists[ClassOf(st, a)]| && st.lists[ClassOf(st, a)][i] == a
  {
    ClassInRange(g, st, a);
    DropFiled(st.next, st.free, st.lists, hand, a, ClassOf(st, a));
    i :| 0 <= i < |st.lists[ClassOf(st, a)]| && st.lists[ClassOf(st, a)][i] == a;
  }

  lemma LinksNonNull(g: Geometry, st: State, hand: set<int>, c: int, i: int)
    requires Physical(g, st) && Filed(st.next, st.free, st.lists, hand)
    requires 0 <= c < CLASS_COUNT && 0 <= i < |st.lists[c]|
    ensures PrevLink(g.nul, st.lists[c], i) > 0 && NextLink(g.nul, st.lists[c], i) > 0
  {
    if i > 0 { InList(g, st, hand, c, i - 1); }
    if i + 1 < |st.lists[c]| { InList(g, st, hand, c, i + 1); }
  }

  lemma HeadNonNull(g: Geometry, st: State, hand: set<int>, c: int)
    requires Physical(g, st) && Filed(st.next, st.free, st.lists, hand)
    requires 0 <= c < CLASS_COUNT
    ensures HeadOf(g.nul, st.lists[c]) > 0
    ensures forall a :: a in st.free ==> a > 0
  {
    if st.lists[c] != [] { InList(g, st, hand, c, 0); }
  }

  lemma HeadIs(fl: Word, sl: seq<Word>, heads: seq<int>, nul: int, lists: Lists, c: int)
    requires Indexes(fl, sl, heads, nul, lists) && 0 <= c < CLASS_COUNT
    ensures |heads| == CLASS_COUNT && heads[c] == HeadOf(nul, lists[c])
  {
  }

  lemma InListSpread(g: Geometry, st: State, hand: set<int>, c: int)
    requires Physical(g, st) && Filed(st.next, st.free, st.lists, hand) && 0 <= c < CLASS_COUNT
    ensures Spread(g.nul, st.lists[c])
  {
    ListSpread(g.first, g.last, st.next, st.prev, st.free, st.lists, hand, g.nul, c);
  }
}
