// sys/hive/arch/amd64/cpu/pmap.c: mapping pages into an address space, lower
// half, four levels.
module Pmap {
  import opened Param
  import opened Pte
  import opened PageTable
  import opened Pmem

  datatype PageSizeClass = Size4K | Size2M | Size1G

  class AddressSpace {
    const pmem: FrameAllocator
    const cr3: nat

    // Physical memory, which holds the paging structures.
    var frames: Frames

    // The tables of the lower half.
    ghost var tree: Tree

    constructor (allocator: FrameAllocator, cr3: nat, memory: Frames)
      ensures pmem == allocator && this.cr3 == cr3 && frames == memory
    {
      pmem, this.cr3, frames, tree := allocator, cr3, memory, map[];
    }

    function Root(): nat { Address(cr3) }

    // Every usable frame exists, and its address fits an entry.
    ghost predicate Backed()
      reads this, pmem, pmem.bitmap
    {
      && pmem.Valid() && pmem.Frames() * PAGESIZE <= PHYSICAL_TOP
      && Root() in frames && FrameAddress(Root())
      && forall k :: 0 <= k < pmem.Frames() ==> k * PAGESIZE in frames
    }

    // Tables are not free frames.
    ghost predicate TablesBusy()
      reads this, pmem.bitmap
    {
      forall t :: t in tree ==> Busy(pmem.Bits(), t)
    }

    ghost predicate Valid()
      reads this, pmem, pmem.bitmap
    {
      Backed() && TablesBusy() && IsTree(frames, Root(), tree)
    }

    // What the processor makes of an address.
    ghost function Translation(vma: nat): Walk
      reads this
    {
      Translate(frames, Root(), LEVELS, vma)
    }

    // mu_pmap_init: clear the lower half of the top level.
    method Init()
      requires Backed() && Busy(pmem.Bits(), Root())
      modifies this
      ensures Valid() && tree == map[Root() := Node(LEVELS, 0, Root())]
      ensures forall v :: 0 <= v < LOWER_TOP ==> Translation(v) == Fault
      ensures frames.Keys == old(frames).Keys && frames[Root()][256..] == old(frames[Root()])[256..]
    {
      hide FrameAllocator.Valid, FrameAllocator.Bits, FrameAddress, Address, IsTree;
      var toplevel := Root();
      ghost var before := frames;
      for i := 0 to 256
        invariant frames.Keys == before.Keys && Backed()
        invariant forall j :: 0 <= j < i ==> frames[toplevel][j] == 0
        invariant frames[toplevel][256..] == before[toplevel][256..]
      {
        frames := frames[toplevel := frames[toplevel][i := 0]];
      }
      tree := map[toplevel := Node(LEVELS, 0, toplevel)];
      ClearedIsTree(frames, toplevel, 0);
      forall v | 0 <= v < LOWER_TOP ensures Translation(v) == Fault {
        ClearedIsTree(frames, toplevel, v);
      }
    }

    // Hang a zeroed frame under an absent entry; 0 when there is no frame.
    method AddTable(base: nat, index: nat) returns (phys: nat)
      requires Valid() && base in tree && base in frames && tree[base].level > 1 && index < Slots(tree[base].level)
      requires !Present(frames[base][index])
      modifies this, pmem, pmem.bitmap
      ensures Valid() && Grown(old(frames), old(tree), frames, tree)
      ensures phys == 0 ==> Exhausted(pmem.Bits(), pmem.Frames())
      ensures phys != 0 ==>
        && base in old(tree) && phys in tree
        && tree[phys] == Node(old(tree)[base].level - 1, 512 * old(tree)[base].region + index, base)
    {
      hide FrameAllocator.Valid, FrameAllocator.Bits, FrameAddress, Address, IsTree, Index, Region, Present, Busy;
      hide Allocated, Grown, Exhausted;
      ghost var bits := pmem.Bits();
      ghost var f0, tree0 := frames, tree;
      NothingGrown(frames, tree);
      phys := pmem.Alloc(1);
      BusyStays(bits, pmem.Bits(), pmem.Frames(), phys / PAGESIZE, tree);
      if phys != 0 {
        NewTable(pmem.Frames(), phys);
        HangTable(frames, Root(), tree, base, index, phys);
        frames := frames[phys := Empty()];
        frames := frames[base := frames[base][index := phys + (PTE_P + PTE_RW + PTE_US)]];
        tree := tree[phys := Node(tree[base].level - 1, 512 * tree[base].region + index, base)];
        HangGrows(f0, tree0, f0, Root(), tree0, base, index, phys);
      }
    }

    // vma_level_base: descend to the table of level lvl on the path of vma,
    // adding tables where alloc allows; not found stands for NULL.
    method LevelBase(vma: nat, lvl: nat, alloc: bool) returns (found: bool, base: nat)
      requires Valid() && vma < LOWER_TOP && 1 <= lvl <= LEVELS
      modifies this, pmem, pmem.bitmap
      ensures Valid() && Grown(old(frames), old(tree), frames, tree)
      ensures found ==> base in tree && tree[base].level == lvl && tree[base].region == Region(vma, lvl)
      ensures !found && alloc ==> Exhausted(pmem.Bits(), pmem.Frames())
      ensures !alloc ==> frames == old(frames) && tree == old(tree)
      ensures !found && !alloc ==> Translation(vma) == Fault
    {
      hide FrameAllocator.Valid, FrameAllocator.Bits, FrameAddress, Address, IsTree, Index, Region, Present, Busy;
      hide Allocated, Grown, Exhausted;
      var curLvl := LEVELS;
      var curBase: nat := Root();
      RootIsTop(frames, Root(), tree);
      LowerHalf(vma);
      ghost var f0, tree0 := frames, tree;
      NothingGrown(frames, tree);
      while curLvl > lvl
        invariant lvl <= curLvl <= LEVELS && Valid()
        invariant Grown(f0, tree0, frames, tree) && (!alloc ==> frames == f0 && tree == tree0)
        invariant curBase in tree && tree[curBase].level == curLvl && tree[curBase].region == Region(vma, curLvl)
      {
        var index := Index(vma, curLvl);
        IndexOfRegion(vma, curLvl);
        NodeFacts(frames, Root(), tree, curBase);
        if Present(frames[curBase][index]) {
          ChildFacts(frames, Root(), tree, curBase, index);
          curBase := Address(frames[curBase][index]);
          curLvl := curLvl - 1;
        } else {
          ghost var f1, tree1 := frames, tree;
          if !alloc {
            WalkPassesThrough(frames, Root(), tree, curBase, vma);
            return false, 0;
          }
          var phys := AddTable(curBase, index);
          GrownTwice(f0, tree0, f1, tree1, frames, tree);
          if phys == 0 {
            return false, 0;
          }
          curBase := phys;
          curLvl := curLvl - 1;
        }
      }
      return true, curBase;
    }

    // mu_pmap_map. The page containing vma then translates to pma with the rights
    // asked for; no other lower-half translation changes, and none does on
    // failure.
    method Map(vma0: nat, pma: nat, prot: nat, ps: PageSizeClass) returns (error: int)
      requires Valid() && vma0 < LOWER_TOP && FrameAddress(pma)
      modifies this, pmem, pmem.bitmap
      ensures Valid() && (error == 0 || error == -1)
      ensures forall v :: 0 <= v < LOWER_TOP ==>
        Translation(v) ==
          if error == 0 && v / PAGESIZE == vma0 / PAGESIZE then Page(pma, RightsOf(prot)) else old(Translation(v))
      ensures ps != Size4K ==> error != 0
      ensures error != 0 ==> ps != Size4K || Exhausted(pmem.Bits(), pmem.Frames())
      ensures Confined(old(frames), frames, tree, Root())
    {
      hide FrameAllocator.Valid, FrameAllocator.Bits, FrameAddress, Address, IsTree, Index, Region, Present, Busy;
      hide Grown, Exhausted, ProtToPte, RightsOf, Confined;
      ghost var f0, tree0 := frames, tree;
      NothingGrown(frames, tree);
      GrownConfined(f0, tree0, frames, tree, Root());
      if ps != Size4K {
        return -1;
      }
      var vma := vma0 - vma0 % PAGESIZE;
      var found, pgtbl := LevelBase(vma, 1, true);
      ghost var f1 := frames;
      GrownWalks(f0, tree0, frames, tree, Root());
      GrownConfined(f0, tree0, frames, tree, Root());
      if !found {
        return -1;
      }
      NodeFacts(frames, Root(), tree, pgtbl);
      var index := Index(vma, 1);
      frames := frames[pgtbl := frames[pgtbl][index := pma + ProtToPte(prot)]];
      LeafKeepsTree(f1, Root(), tree, pgtbl, index, pma + ProtToPte(prot));
      LeafConfined(f0, f1, tree, Root(), pgtbl, index, pma + ProtToPte(prot));
      PageStart(vma0);
      forall v | 0 <= v < LOWER_TOP
        ensures Translation(v)
             == if v / PAGESIZE == vma0 / PAGESIZE then Page(pma, RightsOf(prot)) else old(Translation(v))
      {
        LeafMapsPage(f1, Root(), tree, pgtbl, vma, pma, prot, v);
      }
      error := 0;
    }
  }

  ghost predicate Busy(bits: seq<bool>, t: int) {
    t % PAGESIZE == 0 && (0 <= t / PAGESIZE < |bits| ==> bits[t / PAGESIZE])
  }

  // No frame that could be handed out is left.
  ghost predicate Exhausted(bits: seq<bool>, max: nat) {
    max <= |bits| && forall k :: 0 < k < max ==> bits[k]
  }

  // The tree has only gained tables, the walks of the lower half are as before,
  // and nothing outside the tree has changed.
  ghost predicate Grown(f: Frames, tree: Tree, f': Frames, tree': Tree) {
    && f'.Keys == f.Keys && (forall t :: t in tree ==> t in tree' && tree'[t] == tree[t])
    && (forall x :: x in f && x !in tree' ==> x in f' && f'[x] == f[x])
    && (forall t, v :: t in tree && 1 <= tree[t].level <= LEVELS && 0 <= v < LOWER_TOP ==>
          SameWalk(f, f', t, tree[t].level, v))
    && (forall t :: t in tree && t in f && tree[t].level == LEVELS ==> t in f' && f'[t][256..] == f[t][256..])
  }

  ghost predicate SameWalk(f: Frames, f': Frames, t: int, l: nat, v: nat)
    requires 1 <= l <= LEVELS
  {
    Translate(f', t, l, v) == Translate(f, t, l, v)
  }

  lemma NothingGrown(f: Frames, tree: Tree)
    ensures Grown(f, tree, f, tree)
  {
  }

  lemma BusyStays(bits: seq<bool>, bits': seq<bool>, max: nat, frame: nat, tree: Tree)
    requires Allocated(bits, max, frame, bits')
    requires forall t :: t in tree ==> Busy(bits, t)
    ensures forall t :: t in tree ==> Busy(bits', t)
    ensures frame != 0 ==> frame < max && frame * PAGESIZE !in tree && Busy(bits', frame * PAGESIZE)
    ensures frame == 0 ==> Exhausted(bits', max)
  {
    StillSet(bits, bits', max, frame);
    forall t | t in tree
      ensures frame != 0 ==> t != frame * PAGESIZE
    {
      assert Busy(bits, t);
    }
  }

  lemma NewTable(max: nat, phys: nat)
    requires max * PAGESIZE <= PHYSICAL_TOP && phys % PAGESIZE == 0 && phys / PAGESIZE < max
    ensures FrameAddress(phys) && phys == phys / PAGESIZE * PAGESIZE
  {
  }

  lemma GrownTwice(f0: Frames, tree0: Tree, f1: Frames, tree1: Tree, f2: Frames, tree2: Tree)
    requires Grown(f0, tree0, f1, tree1) && Grown(f1, tree1, f2, tree2)
    ensures Grown(f0, tree0, f2, tree2)
  {
    forall t, v | t in tree0 && 1 <= tree0[t].level <= LEVELS && 0 <= v < LOWER_TOP
      ensures SameWalk(f0, f2, t, tree0[t].level, v)
    {
      assert SameWalk(f0, f1, t, tree0[t].level, v) && SameWalk(f1, f2, t, tree1[t].level, v);
    }
    hide SameWalk;
  }

  lemma HangGrows(f0: Frames, tree0: Tree, f: Frames, root: int, tree: Tree, t: int, i: nat, c: int)
    requires Grown(f0, tree0, f, tree) && CanHang(f, root, tree, t, i, c) && c in f
    ensures Grown(f0, tree0, WithTable(f, t, i, c), tree[c := Node(tree[t].level - 1, 512 * tree[t].region + i, t)])
  {
    hide CanHang, FrameAddress, Present;
    HangFacts(f, root, tree, t, i, c);
    var f' := WithTable(f, t, i, c);
    forall u, v | u in tree0 && 1 <= tree0[u].level <= LEVELS && 0 <= v < LOWER_TOP
      ensures SameWalk(f0, f', u, tree0[u].level, v)
    {
      assert SameWalk(f0, f, u, tree0[u].level, v);
      HangKeepsWalks(f, root, tree, t, i, c, u, v);
    }
    hide SameWalk;
  }

  lemma HangFacts(f: Frames, root: int, tree: Tree, t: int, i: nat, c: int)
    requires CanHang(f, root, tree, t, i, c)
    ensures t in f && t in tree && i < Slots(tree[t].level) && c !in tree && c >= 0 && tree[t].level > 1
  {
  }

  lemma GrownWalks(f: Frames, tree: Tree, f': Frames, tree': Tree, root: int)
    requires Grown(f, tree, f', tree') && IsTree(f, root, tree)
    ensures forall v :: 0 <= v < LOWER_TOP ==> Translate(f', root, LEVELS, v) == Translate(f, root, LEVELS, v)
  {
    forall v | 0 <= v < LOWER_TOP
      ensures Translate(f', root, LEVELS, v) == Translate(f, root, LEVELS, v)
    {
      assert SameWalk(f, f', root, LEVELS, v);
    }
  }

  // Only tables of the tree change, and the upper half of the top level never.
  ghost predicate Confined(f: Frames, f': Frames, tree: Tree, root: int) {
    && f'.Keys == f.Keys && (forall x :: x in f && x !in tree ==> x in f' && f'[x] == f[x])
    && (root in f ==> root in f' && f'[root][256..] == f[root][256..])
  }

  lemma GrownConfined(f: Frames, tree: Tree, f': Frames, tree': Tree, root: int)
    requires Grown(f, tree, f', tree') && IsTree(f, root, tree)
    ensures Confined(f, f', tree', root)
  {
    RootIsTop(f, root, tree);
  }

  lemma LeafConfined(f0: Frames, f: Frames, tree: Tree, root: int, b: int, i: nat, e: nat)
    requires Confined(f0, f, tree, root) && IsTree(f, root, tree)
    requires b in tree && b in f && tree[b].level == 1 && i < 512
    ensures Confined(f0, WithLeaf(f, b, i, e), tree, root)
  {
    RootIsTop(f, root, tree);
  }

  lemma PageStart(vma: nat)
    ensures (vma - vma % PAGESIZE) / PAGESIZE == vma / PAGESIZE
  {
  }

  // ---- Runs of mappings ----

  datatype MapCall = MapCall(vma: nat, pma: nat, prot: nat, ps: PageSizeClass)

  ghost predicate LegalMap(call: MapCall) {
    call.vma < LOWER_TOP && FrameAddress(call.pma)
  }

  // What the last successful call for the page of v asked for.
  ghost function Latest(calls: seq<MapCall>, errors: seq<int>, v: nat): Walk
    requires |calls| == |errors|
    decreases |calls|
  {
    if calls == [] then Fault
    else
      var n := |calls| - 1;
      if errors[n] == 0 && v / PAGESIZE == calls[n].vma / PAGESIZE then Page(calls[n].pma, RightsOf(calls[n].prot))
      else Latest(calls[..n], errors[..n], v)
  }

  // From a cleared lower half, any sequence of maps: the processor sees, for
  // every page, the address and exactly the rights of its latest mapping.
  method MapAll(space: AddressSpace, calls: seq<MapCall>) returns (errors: seq<int>)
    requires space.Valid() && forall v :: 0 <= v < LOWER_TOP ==> space.Translation(v) == Fault
    requires forall i :: 0 <= i < |calls| ==> LegalMap(calls[i])
    modifies space, space.pmem, space.pmem.bitmap
    ensures space.Valid() && |errors| == |calls|
    ensures forall v :: 0 <= v < LOWER_TOP ==> space.Translation(v) == Latest(calls, errors, v)
  {
    hide AddressSpace.Valid, AddressSpace.Translation, RightsOf, FrameAddress;
    errors := [];
    for i := 0 to |calls|
      invariant space.Valid() && |errors| == i
      invariant forall v :: 0 <= v < LOWER_TOP ==> space.Translation(v) == Latest(calls[..i], errors, v)
    {
      assert LegalMap(calls[i]);
      var error := space.Map(calls[i].vma, calls[i].pma, calls[i].prot, calls[i].ps);
      assert calls[..i + 1][..i] == calls[..i] && (errors + [error])[..i] == errors;
      errors := errors + [error];
    }
    assert calls[..|calls|] == calls;
  }
}
