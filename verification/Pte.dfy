// Page-table entries of 4-level paging (Intel SDM Vol. 3A, section 4.5): 64-bit
// words with status bits around a page-frame address.
module Pte {
  import opened Param
  import opened Arith

  const PTE_P := 1
  const PTE_RW := 2
  const PTE_US := 4
  const PTE_NX := 0x8000_0000_0000_0000
  const PHYSICAL_TOP := 0x10_0000_0000_0000    // 2^52

  // What the processor reads from an entry.
  predicate Present(e: nat) { e % 2 == 1 }
  predicate Writable(e: nat) { e / 2 % 2 == 1 }
  predicate User(e: nat) { e / 4 % 2 == 1 }
  predicate PageSize(e: nat) { e / 128 % 2 == 1 }
  predicate NoExecute(e: nat) { e / PTE_NX % 2 == 1 }

  // PTE_ADDR_MASK: bits 12 to 51.
  function Address(e: nat): nat { e / PAGESIZE % 0x100_0000_0000 * PAGESIZE }

  datatype Rights = Rights(write: bool, user: bool, exec: bool)

  // PROT_WRITE, PROT_EXEC, PROT_USER are bits 0, 1 and 2 of prot.
  function RightsOf(prot: nat): Rights {
    Rights(prot % 2 == 1, prot / 4 % 2 == 1, prot / 2 % 2 == 1)
  }

  // prot_to_pte.
  function ProtToPte(prot: nat): nat {
    var flags := PTE_P + PTE_NX;
    var flags := if prot % 2 == 1 then flags + PTE_RW else flags;
    var flags := if prot / 2 % 2 == 1 then flags - PTE_NX else flags;
    if prot / 4 % 2 == 1 then flags + PTE_US else flags
  }

  // A page-aligned address the hardware can hold.
  predicate FrameAddress(pma: nat) { pma % PAGESIZE == 0 && pma < PHYSICAL_TOP }

  // An entry that points to pma with rights r reads back as such.
  ghost predicate Reads(e: nat, pma: nat, r: Rights) {
    && Present(e) && Address(e) == pma && !PageSize(e)
    && r == Rights(Writable(e), User(e), !NoExecute(e))
  }

  lemma LeafReads(pma: nat, prot: nat)
    requires FrameAddress(pma)
    ensures Reads(pma + ProtToPte(prot), pma, RightsOf(prot))
  {
    EntryReads(pma, RightsOf(prot));
  }

  // A table entry carries P, RW and US, and no NX.
  lemma TableReads(phys: nat)
    requires FrameAddress(phys)
    ensures Reads(phys + (PTE_P + PTE_RW + PTE_US), phys, Rights(true, true, true))
  {
    EntryReads(phys, Rights(true, true, true));
  }

  lemma EntryReads(pma: nat, r: Rights)
    requires FrameAddress(pma)
    ensures Reads(pma + PTE_P + (if r.write then PTE_RW else 0) + (if r.user then PTE_US else 0)
                  + (if r.exec then 0 else PTE_NX), pma, r)
  {
    var low := PTE_P + (if r.write then PTE_RW else 0) + (if r.user then PTE_US else 0);
    var n := if r.exec then 0 else 1;
    LowBits(pma / PAGESIZE, n, low);
    HighBits(pma / PAGESIZE, n, low);
    hide Present, Writable, User, PageSize, NoExecute, Address;
  }

  // An entry in parts: NX bit n, frame number f, low flags.
  function Parts(f: nat, n: nat, low: nat): nat { PAGESIZE * f + low + PTE_NX * n }

  lemma LowBits(f: nat, n: nat, low: nat)
    requires low < 8
    ensures Present(Parts(f, n, low)) <==> low % 2 == 1
    ensures Writable(Parts(f, n, low)) <==> low / 2 % 2 == 1
    ensures User(Parts(f, n, low)) <==> low / 4 % 2 == 1
    ensures !PageSize(Parts(f, n, low))
  {
    var x := 16 * f + 0x80_0000_0000_0000 * n;
    var e := Parts(f, n, low);
    assert e == 256 * x + low;
    hide Present, Writable, User, PageSize, Parts;
    Bit0(e, x, low);
    Bit1(e, x, low);
    Bit2(e, x, low);
    Bit7(e, x, low);
  }

  lemma Bit0(e: nat, x: nat, low: nat)
    requires e == 256 * x + low
    ensures Present(e) <==> low % 2 == 1
  {
    Even(128 * x + low / 2, low % 2);
  }

  lemma Bit1(e: nat, x: nat, low: nat)
    requires e == 256 * x + low && low < 8
    ensures Writable(e) <==> low / 2 % 2 == 1
  {
    DivUnique(e, 2, 128 * x + low / 2);
    Even(64 * x + low / 4, low / 2 % 2);
  }

  lemma Bit2(e: nat, x: nat, low: nat)
    requires e == 256 * x + low && low < 8
    ensures User(e) <==> low / 4 % 2 == 1
  {
    DivUnique(e, 4, 64 * x + low / 4);
    Even(32 * x, low / 4);
  }

  lemma Bit7(e: nat, x: nat, low: nat)
    requires e == 256 * x + low && low < 8
    ensures !PageSize(e)
  {
    DivUnique(e, 128, 2 * x);
    Even(x, 0);
  }

  lemma Even(x: nat, c: nat)
    requires c < 2
    ensures (2 * x + c) % 2 == c
  {
  }

  lemma HighBits(f: nat, n: nat, low: nat)
    requires f < 0x100_0000_0000 && n < 2 && low < 8
    ensures NoExecute(Parts(f, n, low)) <==> n == 1
    ensures Address(Parts(f, n, low)) == PAGESIZE * f
  {
    var e := Parts(f, n, low);
    DivUnique(e, PTE_NX, n);
    var q := 0x8_0000_0000_0000 * n + f;
    DivUnique(e, PAGESIZE, q);
    FrameField(n, f);
  }

  lemma FrameField(n: nat, f: nat)
    requires f < 0x100_0000_0000
    ensures (0x8_0000_0000_0000 * n + f) % 0x100_0000_0000 == f
  {
    var x := 0x8_0000_0000_0000 * n + f;
    DivUnique(x, 0x100_0000_0000, 2048 * n);
    QuotientRest(x, 0x100_0000_0000);
  }

  lemma ZeroReads()
    ensures !Present(0)
  {
  }

  // The original builds entries with |, which on operands without common bits is
  // addition.

  // phys | (PTE_P | PTE_RW | PTE_US).
  lemma TableEntryIsOr(phys: nat)
    requires phys % PAGESIZE == 0
    ensures BitOr(phys, PTE_P + PTE_RW + PTE_US) == phys + (PTE_P + PTE_RW + PTE_US)
  {
    Pow2Of12();
    LowAndHigh(phys, 7, 12);
    DisjointOr(phys, 7);
  }

  // pma | pte_flags: the low flags sit below the address, NX above it.
  lemma LeafEntryIsOr(pma: nat, prot: nat)
    requires FrameAddress(pma)
    ensures BitOr(pma, ProtToPte(prot)) == pma + ProtToPte(prot)
  {
    hide Pow2, BitAnd, BitOr, ProtToPte, ShiftLeft;
    var flags := ProtToPte(prot);
    FlagsAround(prot);
    FrameNumber(pma);
    QuotientRest(flags, PAGESIZE);
    Pow2Of12();
    HighAndLow(pma / PAGESIZE, flags / PAGESIZE);
    ShiftOut(pma / PAGESIZE, flags / PAGESIZE, flags % PAGESIZE, 12);
    ShiftLeftIsTimes(pma / PAGESIZE, 12);
    ShiftLeftIsTimes(flags / PAGESIZE, 12);
    DisjointOr(pma, flags);
  }

  lemma FlagsAround(prot: nat)
    ensures ProtToPte(prot) / PAGESIZE == 0 || ProtToPte(prot) / PAGESIZE == 0x8_0000_0000_0000
  {
  }

  lemma FrameNumber(pma: nat)
    requires FrameAddress(pma)
    ensures pma / PAGESIZE < 0x100_0000_0000 && pma == PAGESIZE * (pma / PAGESIZE)
  {
  }

  // entry & PTE_ADDR_MASK.
  lemma AddressIsMask(e: nat)
    ensures BitAnd(e, 0x000F_FFFF_FFFF_F000) == Address(e)
  {
    hide BitAnd, Pow2;
    Pow2Of12();
    Pow2Of40();
    ShiftedMask(e, 12, Pow2(40) - 1);
    ShiftLeftIsTimes(Pow2(40) - 1, 12);
    ShiftIsDiv(e, 12);
    LowMask(e / PAGESIZE, 40);
    ShiftLeftIsTimes(BitAnd(e / PAGESIZE, Pow2(40) - 1), 12);
  }

  // The or, and-not and tests of prot_to_pte.
  lemma ProtToPteIsOr(prot: nat)
    ensures var flags := BitOr(PTE_P, PTE_NX);
      var flags := if BitAnd(prot, 1) != 0 then BitOr(flags, PTE_RW) else flags;
      var flags := if BitAnd(prot, 2) != 0 then BitAnd(flags, SIZE_T_RANGE - 1 - PTE_NX) else flags;
      var flags := if BitAnd(prot, 4) != 0 then BitOr(flags, PTE_US) else flags;
      flags == ProtToPte(prot)
  {
    Tests(prot);
    FlagsOr();
    hide BitAnd, BitOr;
    WithoutNx(PTE_P + PTE_NX);
    WithoutNx(PTE_P + PTE_NX + PTE_RW);
  }

  lemma Tests(prot: nat)
    ensures BitAnd(prot, 1) != 0 <==> prot % 2 == 1
    ensures BitAnd(prot, 2) != 0 <==> prot / 2 % 2 == 1
    ensures BitAnd(prot, 4) != 0 <==> prot / 4 % 2 == 1
  {
    AndDoubles(prot, 1);
    AndDoubles(prot, 2);
    AndDoubles(prot / 2, 1);
    assert prot / 2 / 2 == prot / 4;
  }

  lemma FlagsOr()
    ensures BitOr(PTE_P, PTE_NX) == PTE_P + PTE_NX
    ensures BitOr(PTE_P + PTE_NX, PTE_RW) == PTE_P + PTE_NX + PTE_RW
    ensures forall f :: f in {PTE_P, PTE_P + PTE_RW, PTE_P + PTE_NX, PTE_P + PTE_NX + PTE_RW} ==>
      BitOr(f, PTE_US) == f + PTE_US
  {
    hide BitOr;
    OrStep(PTE_P, PTE_NX);
    OrZeroLeft(PTE_NX / 2);
    OrClearBit(PTE_P + PTE_NX);
    OrClearBit2(PTE_P);
    OrClearBit2(PTE_P + PTE_RW);
    OrClearBit2(PTE_P + PTE_NX);
    OrClearBit2(PTE_P + PTE_NX + PTE_RW);
  }

  lemma OrStep(a: nat, b: nat)
    ensures BitOr(a, b) == 2 * BitOr(a / 2, b / 2) + (if a % 2 == 1 || b % 2 == 1 then 1 else 0)
  {
  }

  lemma OrClearBit(f: nat)
    requires f / 2 % 2 == 0
    ensures BitOr(f, 2) == f + 2
  {
    hide BitOr;
    OrStep(f, 2);
    OrStep(f / 2, 1);
    OrZero(f / 2 / 2);
  }

  lemma OrClearBit2(f: nat)
    requires f / 4 % 2 == 0
    ensures BitOr(f, 4) == f + 4
  {
    hide BitOr;
    OrStep(f, 4);
    OrClearBit(f / 2);
  }

  lemma WithoutNx(f: nat)
    ensures BitAnd(f, SIZE_T_RANGE - 1 - PTE_NX) == f % PTE_NX
  {
    Pow2Of63();
    LowMask(f, 63);
  }

  lemma Pow2Of40()
    ensures Pow2(40) == 0x100_0000_0000
  {
    Pow2Of12();
    assert Pow2(4) == 16;
    hide Pow2;
    Pow2Sum(12, 12);
    Pow2Sum(24, 12);
    Pow2Sum(36, 4);
  }

  lemma Pow2Of63()
    ensures Pow2(63) == PTE_NX
  {
    Pow2Of12();
    Pow2Of51();
    hide Pow2;
    Pow2Sum(51, 12);
  }

  lemma Pow2Of12()
    ensures Pow2(12) == 4096
  {
    assert Pow2(6) == 64;
    Pow2Sum(6, 6);
  }

  // Above the low twelve bits only NX is left, at bit 51 of the quotient.
  lemma HighAndLow(f: nat, h: nat)
    requires f < 0x100_0000_0000 && (h == 0 || h == 0x8_0000_0000_0000)
    ensures BitAnd(f, h) == 0
  {
    Pow2Of51();
    hide Pow2, BitAnd;
    AndCommutes(f, h);
    LowAndHigh(h, f, 51);
  }

  lemma Pow2Of51()
    ensures Pow2(51) == 0x8_0000_0000_0000
  {
    Pow2Of12();
    assert Pow2(3) == 8;
    hide Pow2;
    Pow2Sum(12, 12);
    Pow2Sum(24, 24);
    Pow2Sum(48, 3);
  }

  lemma {:induction false} AndCommutes(a: nat, b: nat)
    ensures BitAnd(a, b) == BitAnd(b, a)
    decreases a
  {
    if a > 0 && b > 0 { AndCommutes(a / 2, b / 2); }
  }

  // Shifting out k bits that are clear on the left.
  lemma {:induction false} ShiftOut(q: nat, h: nat, r: nat, k: nat)
    requires r < Pow2(k) && BitAnd(q, h) == 0
    ensures BitAnd(ShiftLeft(q, k), ShiftLeft(h, k) + r) == 0
    decreases k
  {
    if k > 0 {
      hide BitAnd;
      ShiftOut(q, h, r / 2, k - 1);
      EvenAnd(ShiftLeft(q, k - 1), ShiftLeft(h, k - 1) + r / 2, r % 2);
    }
  }

  lemma EvenAnd(a: nat, b: nat, bit: nat)
    requires bit < 2 && BitAnd(a, b) == 0
    ensures BitAnd(2 * a, 2 * b + bit) == 0
  {
    if a > 0 && 2 * b + bit > 0 { assert 2 * a / 2 == a && (2 * b + bit) / 2 == b; }
  }
}
