// sys/hive/mm/vmem.c: mapping a range, page by page.
module Vmem {
  import opened Param
  import opened Errno
  import opened Pte
  import opened PageTable
  import opened Pmem
  import opened Pmap


  datatype Region = Region(pma: nat, vma: nat, length: nat)
  datatype RegionArg = NoRegion | Of(region: Region)

  function PageDown(x: nat): nat { x - x % PAGESIZE }

  // The walk after n pages from the one of vma on have been mapped to frames from
  // the one of pma on.
  ghost function Mapped(vma: nat, pma: nat, n: nat, prot: nat, v: nat, before: Walk): Walk {
    if vma / PAGESIZE <= v / PAGESIZE < vma / PAGESIZE + n then
      Page((pma / PAGESIZE + v / PAGESIZE - vma / PAGESIZE) * PAGESIZE, RightsOf(prot))
    else before
  }

  ghost function Outcome(arg: RegionArg, n: nat, prot: nat, v: nat, before: Walk): Walk {
    match arg
    case NoRegion => before
    case Of(r) => Mapped(r.vma, r.pma, n, prot, v, before)
  }

  // How many pages the length comes to.
  ghost predicate PagesIn(length: nat, n: nat) {
    (n - 1) * PAGESIZE < length <= n * PAGESIZE
  }

  // The range stays inside the lower half and the addresses an entry can hold.
  ghost predicate RangeFits(r: Region) {
    && r.length + PAGESIZE <= SIZE_T_RANGE
    && forall n: nat :: PagesIn(r.length, n) ==>
         (r.vma / PAGESIZE + n) * PAGESIZE <= LOWER_TOP && (r.pma / PAGESIZE + n) * PAGESIZE <= PHYSICAL_TOP
  }

  // vmem_map_region. Success maps page i of the aligned range to page i of the
  // frame range and nothing else; a failure has mapped exactly the pages before
  // the one that failed.
  method MapRegion(space: AddressSpace, arg: RegionArg, prot: nat) returns (error: int, ghost mapped: nat)
    requires space.Valid() && (arg.Of? ==> RangeFits(arg.region))
    modifies space, space.pmem, space.pmem.bitmap
    ensures space.Valid()
    ensures arg.NoRegion? ==> error == -EINVAL && mapped == 0
    ensures arg.Of? ==> error == 0 || error == -1
    ensures arg.Of? && error == 0 ==> PagesIn(arg.region.length, mapped)
    ensures arg.Of? && error != 0 ==>
      mapped * PAGESIZE < arg.region.length && Exhausted(space.pmem.Bits(), space.pmem.Frames())
    ensures forall v :: 0 <= v < LOWER_TOP ==>
      space.Translation(v) == Outcome(arg, mapped, prot, v, old(space.Translation(v)))
  {
    hide AddressSpace.Valid, AddressSpace.Translation, RightsOf, Exhausted;
    mapped := 0;
    if arg.NoRegion? {
      return -EINVAL, 0;
    }
    var pbase := PageDown(arg.region.pma);
    var vbase := PageDown(arg.region.vma);
    var length := PageUp(arg.region.length);
    ghost var pages := PagesAligned(arg.region);
    hide PageDown, PageUp, PagesIn;
    var i := 0;
    while i < length
      invariant i == mapped * PAGESIZE && i <= length && space.Valid()
      invariant forall v :: 0 <= v < LOWER_TOP ==>
        space.Translation(v) == Mapped(arg.region.vma, arg.region.pma, mapped, prot, v, old(space.Translation(v)))
    {
      PageAt(arg.region.vma, vbase, arg.region.pma, pbase, mapped, pages);
      NotYet(arg.region.length, mapped, pages);
      error := space.Map(vbase + i, pbase + i, prot, Size4K);
      if error != 0 {
        return;
      }
      i := i + PAGESIZE;
      mapped := mapped + 1;
    }
    error := 0;
  }

  // The aligned base and length, and the number of pages that they make.
  lemma PagesAligned(r: Region) returns (n: nat)
    requires r.length + PAGESIZE <= SIZE_T_RANGE
    ensures PageDown(r.pma) == r.pma / PAGESIZE * PAGESIZE && PageDown(r.vma) == r.vma / PAGESIZE * PAGESIZE
    ensures PageUp(r.length) == n * PAGESIZE && PagesIn(r.length, n)
  {
    n := PageUp(r.length) / PAGESIZE;
  }

  lemma NotYet(length: nat, i: nat, n: nat)
    requires i * PAGESIZE < n * PAGESIZE && PagesIn(length, n)
    ensures i * PAGESIZE < length
  {
  }

  // Page n of the range and its frame.
  lemma PageAt(vma: nat, vbase: nat, pma: nat, pbase: nat, n: nat, pages: nat)
    requires vbase == vma / PAGESIZE * PAGESIZE && pbase == pma / PAGESIZE * PAGESIZE && n < pages
    requires (vma / PAGESIZE + pages) * PAGESIZE <= LOWER_TOP && (pma / PAGESIZE + pages) * PAGESIZE <= PHYSICAL_TOP
    ensures (vbase + n * PAGESIZE) / PAGESIZE == vma / PAGESIZE + n && vbase + n * PAGESIZE < LOWER_TOP
    ensures FrameAddress(pbase + n * PAGESIZE) && pbase + n * PAGESIZE == (pma / PAGESIZE + n) * PAGESIZE
  {
  }
}
