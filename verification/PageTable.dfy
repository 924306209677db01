// Four-level translation as the processor performs it (Intel SDM Vol. 3A,
// sections 4.5 and 4.6), and the tree of tables below one top level.
module PageTable {
  import opened Param
  import opened Arith
  import opened Pte

  const LOWER_TOP := 0x8000_0000_0000     // end of the lower half, 2^47
  const LEVELS := 4

  // One paging structure: 512 entries.
  type Table = t: seq<nat> | |t| == 512 witness seq(512, _ => 0)

  // Physical memory seen as paging structures, by frame address.
  type Frames = map<int, Table>

  function Empty(): Table { seq(512, _ => 0) }

  // Bytes translated by one entry of a level-l table.
  function Span(l: nat): (s: nat)
    ensures s > 0
  {
    if l <= 1 then 0x1000 else if l == 2 then 0x20_0000 else if l == 3 then 0x4000_0000 else 0x80_0000_0000
  }

  // vma_level_index.
  function Index(vma: nat, l: nat): (i: nat)
    ensures i < 512
  {
    vma / Span(l) % 512
  }

  // The number of the region that the level-l table on the path of vma covers;
  // level 0 is the page itself.
  function Region(vma: nat, l: nat): nat
    decreases l
  {
    if l == 0 then vma / PAGESIZE else Region(vma, l - 1) / 512
  }

  lemma IndexOfRegion(vma: nat, l: nat)
    requires 1 <= l <= LEVELS
    ensures Index(vma, l) == Region(vma, l - 1) % 512
    ensures Region(vma, l - 1) == 512 * Region(vma, l) + Index(vma, l)
  {
    assert vma / 0x1000 / 512 == vma / 0x20_0000;
    assert vma / 0x20_0000 / 512 == vma / 0x4000_0000;
    assert vma / 0x4000_0000 / 512 == vma / 0x80_0000_0000;
    if l == 2 {
      assert Region(vma, 1) == vma / 0x20_0000;
    } else if l == 3 {
      assert Region(vma, 1) == vma / 0x20_0000 && Region(vma, 2) == vma / 0x4000_0000;
    } else if l == 4 {
      assert Region(vma, 1) == vma / 0x20_0000 && Region(vma, 2) == vma / 0x4000_0000;
      assert Region(vma, 3) == vma / 0x80_0000_0000;
    }
  }

  // (vma >> 12) & 0x1FF, (vma >> 21) & 0x1FF and so on.
  lemma IndexIsMasked(vma: nat, l: nat)
    requires 1 <= l <= LEVELS
    ensures BitAnd(ShiftRight(vma, 12 + 9 * (l - 1)), 0x1FF) == Index(vma, l)
  {
    SpanIsPower(l);
    assert Pow2(9) == 512;
    hide BitAnd, ShiftRight, Pow2;
    ShiftIsDiv(vma, 12 + 9 * (l - 1));
    LowMask(vma / Span(l), 9);
  }

  lemma SpanIsPower(l: nat)
    requires 1 <= l <= LEVELS
    ensures Pow2(12 + 9 * (l - 1)) == Span(l)
  {
    Pow2Of12();
    assert Pow2(9) == 512;
    hide Pow2;
    Pow2Sum(12, 9);
    Pow2Sum(21, 9);
    Pow2Sum(30, 9);
  }

  // The lower half hangs under the first 256 entries of the top level.
  lemma LowerHalf(vma: nat)
    requires vma < LOWER_TOP
    ensures Index(vma, 4) < 256 && Region(vma, 4) == 0
  {
    IndexOfRegion(vma, 4);
    assert vma / 0x80_0000_0000 < 256;
    IndexOfRegion(vma, 3);
    IndexOfRegion(vma, 2);
    IndexOfRegion(vma, 1);
  }

  // The four indices determine the page.
  lemma IndicesDeterminePage(v: nat, w: nat)
    requires v < LOWER_TOP && w < LOWER_TOP
    ensures (forall l :: 1 <= l <= LEVELS ==> Index(v, l) == Index(w, l)) <==> v / PAGESIZE == w / PAGESIZE
  {
    LowerHalf(v);
    LowerHalf(w);
    forall l | 1 <= l <= LEVELS
      ensures Region(v, l - 1) == 512 * Region(v, l) + Index(v, l)
      ensures Region(w, l - 1) == 512 * Region(w, l) + Index(w, l)
    {
      IndexOfRegion(v, l);
      IndexOfRegion(w, l);
    }
    hide Index;
    if v / PAGESIZE == w / PAGESIZE {
      SamePageSameRegions(v, w, 0);
      SamePageSameRegions(v, w, 1);
      SamePageSameRegions(v, w, 2);
      SamePageSameRegions(v, w, 3);
    } else if forall l :: 1 <= l <= LEVELS ==> Index(v, l) == Index(w, l) {
      assert Region(v, 3) == Region(w, 3);
      assert Region(v, 2) == Region(w, 2);
      assert Region(v, 1) == Region(w, 1);
    }
  }

  lemma {:induction false} SamePageSameRegions(v: nat, w: nat, l: nat)
    requires v / PAGESIZE == w / PAGESIZE
    ensures Region(v, l) == Region(w, l)
  {
    if l > 0 { SamePageSameRegions(v, w, l - 1); }
  }

  // ---- The hardware walk ----

  datatype Walk = Fault | Large | Page(pma: nat, rights: Rights)

  // An access right needs the agreement of every entry on the path.
  function Restrict(w: Walk, r: Rights): Walk {
    match w
    case Page(pma, s) => Page(pma, Rights(s.write && r.write, s.user && r.user, s.exec && r.exec))
    case _ => w
  }

  ghost function Translate(f: Frames, t: int, l: nat, vma: nat): Walk
    requires 1 <= l <= LEVELS
    decreases l
  {
    if t !in f then Fault
    else
      var e := f[t][Index(vma, l)];
      var r := Rights(Writable(e), User(e), !NoExecute(e));
      if !Present(e) then Fault
      else if l == 1 then Page(Address(e), r)
      else if PageSize(e) then Large
      else Restrict(Translate(f, Address(e), l - 1, vma), r)
  }

  // ---- The tree of tables ----

  // Level, region covered, and the table whose entry points here.
  datatype Node = Node(level: nat, region: nat, parent: int)
  type Tree = map<int, Node>

  // Entries of a table that belong to the lower half.
  function Slots(level: nat): nat { if level == LEVELS then 256 else 512 }

  const TABLE_FLAGS := PTE_P + PTE_RW + PTE_US

  // Entry i of table t leads to its own child, with full rights.
  ghost predicate ChildAt(f: Frames, tree: Tree, t: int, i: nat)
    requires t in tree && t in f && i < 512
  {
    var e := f[t][i];
    Present(e) ==>
      && Address(e) in tree && e == Address(e) + TABLE_FLAGS && tree[t].level > 1
      && tree[Address(e)] == Node(tree[t].level - 1, 512 * tree[t].region + i, t)
  }

  // Table c hangs under its parent.
  ghost predicate HangsUnder(f: Frames, tree: Tree, c: int)
    requires c in tree
  {
    var p := tree[c].parent;
    && p in tree && p in f && tree[p].level == tree[c].level + 1
    && tree[c].region / 512 == tree[p].region && tree[c].region % 512 < Slots(tree[p].level)
    && f[p][tree[c].region % 512] == c + TABLE_FLAGS
  }

  ghost predicate NodeOk(f: Frames, tree: Tree, root: int, t: int)
    requires t in tree
  {
    t in f && t >= 0 && FrameAddress(t) && 1 <= tree[t].level <= LEVELS && (tree[t].level == LEVELS <==> t == root)
  }

  // The lower half below root is a tree whose nodes are exactly these tables.
  ghost predicate IsTree(f: Frames, root: int, tree: Tree) {
    && root in tree && tree[root] == Node(LEVELS, 0, root)
    && (forall t :: t in tree ==> NodeOk(f, tree, root, t))
    && (forall t :: t in tree && t != root ==> HangsUnder(f, tree, t))
    && (forall t, i :: t in tree && t in f && tree[t].level > 1 && 0 <= i < Slots(tree[t].level) ==>
          ChildAt(f, tree, t, i))
  }

  // No two entries of the tree share a table.
  lemma NoSharing(f: Frames, root: int, tree: Tree, t: int, i: nat, t': int, i': nat)
    requires IsTree(f, root, tree) && t in tree && t' in tree && tree[t].level > 1 && tree[t'].level > 1
    requires i < Slots(tree[t].level) && i' < Slots(tree[t'].level)
    requires t in f && t' in f && Present(f[t][i]) && Present(f[t'][i']) && Address(f[t][i]) == Address(f[t'][i'])
    ensures t == t' && i == i'
  {
    assert ChildAt(f, tree, t, i) && ChildAt(f, tree, t', i');
  }

  // The walk of any lower-half address that a table covers passes through that
  // table, and loses no right before it.
  lemma {:induction false} WalkPassesThrough(f: Frames, root: int, tree: Tree, c: int, vma: nat)
    requires IsTree(f, root, tree) && vma < LOWER_TOP && c in tree && 1 <= tree[c].level <= LEVELS
    requires tree[c].region == Region(vma, tree[c].level)
    ensures Translate(f, root, LEVELS, vma) == Translate(f, c, tree[c].level, vma)
    decreases LEVELS - tree[c].level
  {
    hide Region, Index, Address, Present;
    assert NodeOk(f, tree, root, c);
    if c != root {
      assert HangsUnder(f, tree, c);
      var p, l := tree[c].parent, tree[c].level + 1;
      assert NodeOk(f, tree, root, p);
      IndexOfRegion(vma, l);
      WalkPassesThrough(f, root, tree, p, vma);
      TableReads(c);
      FullRights(Translate(f, c, l - 1, vma));
    }
  }

  lemma FullRights(w: Walk)
    ensures Restrict(w, Rights(true, true, true)) == w
  {
  }

  // ---- Hanging a new, empty table under entry i of t ----

  function WithTable(f: Frames, t: int, i: nat, c: int): Frames
    requires t in f && i < 512 && c >= 0
  {
    f[c := Empty()][t := f[t][i := c + TABLE_FLAGS]]
  }

  ghost predicate CanHang(f: Frames, root: int, tree: Tree, t: int, i: nat, c: int) {
    && IsTree(f, root, tree) && t in tree && t in f && tree[t].level > 1 && i < Slots(tree[t].level)
    && !Present(f[t][i]) && c !in tree && c >= 0 && FrameAddress(c)
  }

  lemma HangTable(f: Frames, root: int, tree: Tree, t: int, i: nat, c: int)
    requires CanHang(f, root, tree, t, i, c)
    ensures IsTree(WithTable(f, t, i, c), root, tree[c := Node(tree[t].level - 1, 512 * tree[t].region + i, t)])
  {
    hide Address, Present, FrameAddress, ChildAt;
    TableReads(c);
    ZeroReads();
    var f', tree' := WithTable(f, t, i, c), tree[c := Node(tree[t].level - 1, 512 * tree[t].region + i, t)];
    assert NodeOk(f, tree, root, t);
    forall u | u in tree' && u != root ensures HangsUnder(f', tree', u) {
      if u != c { HangsStill(f, root, tree, t, i, c, u); }
    }
    forall u, j | u in tree' && u in f' && tree'[u].level > 1 && 0 <= j < Slots(tree'[u].level)
      ensures ChildAt(f', tree', u, j)
    {
      ChildStill(f, root, tree, t, i, c, u, j);
    }
    forall u | u in tree' ensures NodeOk(f', tree', root, u) {
      if u != c { assert NodeOk(f, tree, root, u); }
    }
  }

  lemma HangsStill(f: Frames, root: int, tree: Tree, t: int, i: nat, c: int, u: int)
    requires CanHang(f, root, tree, t, i, c) && u in tree && u != root
    ensures var tree' := tree[c := Node(tree[t].level - 1, 512 * tree[t].region + i, t)];
      HangsUnder(WithTable(f, t, i, c), tree', u)
  {
    hide Address, ChildAt;
    assert HangsUnder(f, tree, u);
    assert NodeOk(f, tree, root, u);
    TableReads(u);
  }

  lemma ChildStill(f: Frames, root: int, tree: Tree, t: int, i: nat, c: int, u: int, j: nat)
    requires CanHang(f, root, tree, t, i, c)
    requires var tree' := tree[c := Node(tree[t].level - 1, 512 * tree[t].region + i, t)];
      u in tree' && u in WithTable(f, t, i, c) && tree'[u].level > 1 && j < Slots(tree'[u].level)
    ensures var tree' := tree[c := Node(tree[t].level - 1, 512 * tree[t].region + i, t)];
      ChildAt(WithTable(f, t, i, c), tree', u, j)
  {
    hide Address, Present, FrameAddress;
    TableReads(c);
    ZeroReads();
    if u != c {
      assert NodeOk(f, tree, root, u);
      assert ChildAt(f, tree, u, j);
    }
  }

  // The new table changes no translation of the lower half.
  lemma {:induction false} HangKeepsWalks(f: Frames, root: int, tree: Tree, t: int, i: nat, c: int, u: int, vma: nat)
    requires CanHang(f, root, tree, t, i, c) && vma < LOWER_TOP
    requires u in tree && 1 <= tree[u].level <= LEVELS
    ensures Translate(WithTable(f, t, i, c), u, tree[u].level, vma) == Translate(f, u, tree[u].level, vma)
    decreases tree[u].level
  {
    hide Address, Present, FrameAddress, Index, IsTree, WithTable;
    var l := tree[u].level;
    LowerHalf(vma);
    NodeFacts(f, root, tree, u);
    HangEntry(f, root, tree, t, i, c, u, Index(vma, l));
    if u == t && Index(vma, l) == i {
      HangFaults(f, root, tree, t, i, c, vma);
    } else if Present(f[u][Index(vma, l)]) && l > 1 {
      ChildFacts(f, root, tree, u, Index(vma, l));
      HangKeepsWalks(f, root, tree, t, i, c, Address(f[u][Index(vma, l)]), vma);
    }
  }

  lemma NodeFacts(f: Frames, root: int, tree: Tree, u: int)
    requires IsTree(f, root, tree) && u in tree
    ensures u in f && NodeOk(f, tree, root, u)
  {
  }

  lemma ChildFacts(f: Frames, root: int, tree: Tree, u: int, i: nat)
    requires IsTree(f, root, tree) && u in tree && u in f && tree[u].level > 1 && i < Slots(tree[u].level)
    requires Present(f[u][i])
    ensures var c := Address(f[u][i]); c in tree && tree[c] == Node(tree[u].level - 1, 512 * tree[u].region + i, u)
  {
    assert ChildAt(f, tree, u, i);
  }

  // Entries of old tables other than the one set are as before.
  lemma HangEntry(f: Frames, root: int, tree: Tree, t: int, i: nat, c: int, u: int, j: nat)
    requires CanHang(f, root, tree, t, i, c) && u in tree && u in f && j < 512
    ensures u in WithTable(f, t, i, c)
    ensures !(u == t && j == i) ==> WithTable(f, t, i, c)[u][j] == f[u][j]
  {
  }

  lemma HangFaults(f: Frames, root: int, tree: Tree, t: int, i: nat, c: int, vma: nat)
    requires CanHang(f, root, tree, t, i, c) && 1 < tree[t].level <= LEVELS && Index(vma, tree[t].level) == i
    ensures Translate(WithTable(f, t, i, c), t, tree[t].level, vma) == Fault
    ensures Translate(f, t, tree[t].level, vma) == Fault
  {
    hide Address, Present, FrameAddress, Index, PageSize;
    TableReads(c);
    ZeroReads();
    var f' := WithTable(f, t, i, c);
    assert f'[t][i] == c + TABLE_FLAGS && f'[c] == Empty();
    assert Translate(f', c, tree[t].level - 1, vma) == Fault;
  }

  // ---- Setting a leaf entry ----

  function WithLeaf(f: Frames, b: int, i: nat, e: nat): Frames
    requires b in f && i < 512
  {
    f[b := f[b][i := e]]
  }

  lemma LeafKeepsTree(f: Frames, root: int, tree: Tree, b: int, i: nat, e: nat)
    requires IsTree(f, root, tree) && b in tree && b in f && tree[b].level == 1 && i < 512
    ensures IsTree(WithLeaf(f, b, i, e), root, tree)
  {
    hide Address, Present, FrameAddress;
    var f' := WithLeaf(f, b, i, e);
    forall t | t in tree ensures NodeOk(f', tree, root, t) {
      assert NodeOk(f, tree, root, t);
    }
    forall t | t in tree && t != root ensures HangsUnder(f', tree, t) {
      assert HangsUnder(f, tree, t);
      assert NodeOk(f, tree, root, t);
    }
    forall t, j | t in tree && t in f' && tree[t].level > 1 && 0 <= j < Slots(tree[t].level)
      ensures ChildAt(f', tree, t, j)
    {
      assert ChildAt(f, tree, t, j);
    }
  }

  // Setting a leaf changes no other page's translation.
  lemma {:induction false} LeafKeepsWalks(f: Frames, root: int, tree: Tree, b: int, i: nat, e: nat, u: int, vma: nat)
    requires IsTree(f, root, tree) && b in tree && b in f && tree[b].level == 1 && i < 512
    requires vma < LOWER_TOP && vma / PAGESIZE != 512 * tree[b].region + i
    requires u in tree && 1 <= tree[u].level <= LEVELS && tree[u].region == Region(vma, tree[u].level)
    ensures Translate(WithLeaf(f, b, i, e), u, tree[u].level, vma) == Translate(f, u, tree[u].level, vma)
    decreases tree[u].level
  {
    hide Address, Present, FrameAddress, Index, IsTree;
    var l := tree[u].level;
    LowerHalf(vma);
    NodeFacts(f, root, tree, u);
    IndexOfRegion(vma, l);
    if Present(f[u][Index(vma, l)]) && l > 1 {
      ChildFacts(f, root, tree, u, Index(vma, l));
      hide Region;
      LeafKeepsWalks(f, root, tree, b, i, e, Address(f[u][Index(vma, l)]), vma);
    }
  }

  // The frame theorem for one page: after the leaf for vma is set, vma's page
  // translates to pma with exactly the requested rights, every other page as it
  // did.
  lemma LeafMapsPage(f: Frames, root: int, tree: Tree, b: int, vma: nat, pma: nat, prot: nat, v: nat)
    requires IsTree(f, root, tree) && b in tree && b in f && tree[b].level == 1 && tree[b].region == Region(vma, 1)
    requires vma < LOWER_TOP && v < LOWER_TOP && FrameAddress(pma)
    ensures Translate(WithLeaf(f, b, Index(vma, 1), pma + ProtToPte(prot)), root, LEVELS, v)
         == if v / PAGESIZE == vma / PAGESIZE then Page(pma, RightsOf(prot)) else Translate(f, root, LEVELS, v)
  {
    hide Address, Present, FrameAddress, ProtToPte, Index, Writable, User, NoExecute, RightsOf;
    var i, e := Index(vma, 1), pma + ProtToPte(prot);
    var f' := WithLeaf(f, b, i, e);
    IndexOfRegion(vma, 1);
    IndexOfRegion(v, 1);
    LowerHalf(v);
    LeafReads(pma, prot);
    LeafKeepsTree(f, root, tree, b, i, e);
    RootIsTop(f, root, tree);
    hide IsTree;
    if v / PAGESIZE == vma / PAGESIZE {
      SamePageSameRegions(v, vma, 1);
      hide Region;
      WalkPassesThrough(f', root, tree, b, v);
    } else {
      LeafKeepsWalks(f, root, tree, b, i, e, root, v);
    }
  }

  lemma RootIsTop(f: Frames, root: int, tree: Tree)
    requires IsTree(f, root, tree)
    ensures root in tree && tree[root] == Node(LEVELS, 0, root)
  {
  }

  // With nothing in the lower half of the top level, nothing is mapped there.
  lemma ClearedIsTree(f: Frames, root: int, vma: nat)
    requires root in f && root >= 0 && FrameAddress(root) && vma < LOWER_TOP
    requires forall i :: 0 <= i < 256 ==> f[root][i] == 0
    ensures IsTree(f, root, map[root := Node(LEVELS, 0, root)])
    ensures Translate(f, root, LEVELS, vma) == Fault
  {
    hide Address, FrameAddress, Index;
    ZeroReads();
    LowerHalf(vma);
  }
}
