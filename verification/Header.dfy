// The size word of a block header: a multiple of four with two status bits.
module Header {
  import opened Arith
  import opened SizeClass

  function BlockSize(w: int): int { w - w % 4 }
  predicate FreeBit(w: int) { w % 2 == 1 }
  predicate PrevFreeBit(w: int) { w / 2 % 2 == 1 }

  function SetSize(w: int, size: int): int { size + w % 4 }
  function SetFree(w: int): int { if FreeBit(w) then w else w + 1 }
  function SetUsed(w: int): int { if FreeBit(w) then w - 1 else w }
  function SetPrevFree(w: int): int { if PrevFreeBit(w) then w else w + 2 }
  function SetPrevUsed(w: int): int { if PrevFreeBit(w) then w - 2 else w }

  // What a size word says.
  ghost predicate Says(w: int, size: int, free: bool, prevFree: bool) {
    BlockSize(w) == size && FreeBit(w) == free && PrevFreeBit(w) == prevFree
  }

  // A word in parts: four times h, bit 1 and bit 0.
  lemma Parts(h: int, p: bool, f: bool)
    ensures Says(4 * h + (if p then 2 else 0) + (if f then 1 else 0), 4 * h, f, p)
  {
    var low, high := if f then 1 else 0, if p then 1 else 0;
    var w := 4 * h + 2 * high + low;
    assert w % 4 == 2 * high + low;
    assert w / 2 == 2 * h + high && (2 * h + high) % 2 == high && w % 2 == low;
  }

  lemma Decompose(w: int) returns (h: int)
    ensures w == 4 * h + (if PrevFreeBit(w) then 2 else 0) + (if FreeBit(w) then 1 else 0)
    ensures BlockSize(w) == 4 * h
  {
    h := w / 4;
    var r := w % 4;
    assert w == 4 * h + r && 0 <= r < 4;
    Parts(h, r >= 2, r == 1 || r == 3);
  }

  // Each update changes the one field it names.
  lemma StatusUpdates(w: int)
    ensures Says(SetFree(w), BlockSize(w), true, PrevFreeBit(w))
    ensures Says(SetUsed(w), BlockSize(w), false, PrevFreeBit(w))
    ensures Says(SetPrevFree(w), BlockSize(w), FreeBit(w), true)
    ensures Says(SetPrevUsed(w), BlockSize(w), FreeBit(w), false)
  {
    hide BlockSize, FreeBit, PrevFreeBit;
    var h := Decompose(w);
    Parts(h, PrevFreeBit(w), true);
    Parts(h, PrevFreeBit(w), false);
    Parts(h, true, FreeBit(w));
    Parts(h, false, FreeBit(w));
  }

  // block_set_size keeps whatever status bits were there before; the size must
  // be a multiple of four.
  lemma SizeUpdate(w: int, size: int)
    requires Multiple8(size)
    ensures Says(SetSize(w, size), size, FreeBit(w), PrevFreeBit(w))
  {
    var h := Decompose(w);
    LowBits(w, h);
    var k := size / 4;
    assert size == 4 * k;
    Parts(k, PrevFreeBit(w), FreeBit(w));
  }

  lemma LowBits(w: int, h: int)
    requires w == 4 * h + (if PrevFreeBit(w) then 2 else 0) + (if FreeBit(w) then 1 else 0)
    ensures w % 4 == w - 4 * h
  {
    hide FreeBit, PrevFreeBit;
  }

  // Adding a multiple of four leaves the status bits alone.
  lemma SizeAdded(w: int, d: int)
    requires Multiple8(d)
    ensures Says(w + d, BlockSize(w) + d, FreeBit(w), PrevFreeBit(w))
  {
    var h := Decompose(w);
    var k := d / 4;
    assert d == 4 * k;
    Parts(h + k, PrevFreeBit(w), FreeBit(w));
  }

  // On n-bit words (n is 64 here) these functions are the masks the allocator
  // writes: & ~3, & ~1, & ~2, | 1 and | 2.
  lemma ClearingMasks(w: nat, n: nat)
    requires n >= 2 && w < Pow2(n)
    ensures Pow2(n) >= 4
    ensures BitAnd(w, Pow2(n) - 4) == BlockSize(w)
    ensures BitAnd(w, Pow2(n) - 2) == SetUsed(w)
  {
    hide BitAnd;
    assert Pow2(2) == 4 && Pow2(1) == 2;
    MaskRoundsDown(w, n, 2);
    MaskRoundsDown(w, n, 1);
  }

  lemma ClearingMask2(w: nat, n: nat)
    requires n >= 2 && w < Pow2(n)
    ensures Pow2(n) >= 4
    ensures BitAnd(w, Pow2(n) - 3) == SetPrevUsed(w)
  {
    hide BitAnd;
    assert Pow2(1) == 2 && Pow2(n) == 2 * Pow2(n - 1) && Pow2(n - 1) == 2 * Pow2(n - 2);
    MaskRoundsDown(w / 2, n - 1, 1);
    var h := Pow2(n - 1) - 2;
    assert Pow2(n) - 3 == 2 * h + 1;
    AndOdd(w, h);
  }

  // block_set_size: size | (oldsize & 3).
  lemma SizeMask(w: nat, size: nat)
    requires size % 4 == 0
    ensures BitOr(size, BitAnd(w, 3)) == SetSize(w, size)
  {
    assert BitAnd(w, 3) == 2 * BitAnd(w / 2, 1) + w % 2 && BitAnd(w / 2, 1) == w / 2 % 2;
    assert BitAnd(w, 3) == w % 4;
    assert Pow2(2) == 4;
    LowAndHigh(size, w % 4, 2);
    DisjointOr(size, w % 4);
  }

  lemma SettingMasks(w: nat)
    ensures BitOr(w, 1) == SetFree(w)
    ensures BitOr(w, 2) == SetPrevFree(w)
  {
    OrZero(w / 2);
    OrZero(w / 2 / 2);
    assert BitOr(w / 2, 1) == 2 * BitOr(w / 2 / 2, 0) + 1;
    assert BitOr(w, 2) == 2 * BitOr(w / 2, 1) + w % 2;
  }
}
