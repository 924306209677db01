// The two-level bitmap and the table of list heads over the free lists.
module FreeIndex {
  import opened SizeClass
  import opened Words
  import opened Heap
  import opened HeapOps
  import opened HeapMemory

  // The bit for list (i, j) is set exactly when that list is non-empty.
  ghost predicate RowIndexes(row: Word, lists: Lists, i: int) {
    && |lists| == CLASS_COUNT && 0 <= i < FL_INDEX_COUNT
    && forall j {:trigger row[j]} :: 0 <= j < 32 ==> (row[j] <==> lists[32 * i + j] != [])
  }

  // The bit for row i is set exactly when the row's word is non-zero.
  ghost predicate RowsIndex(fl: Word, sl: seq<Word>) {
    |sl| == FL_INDEX_COUNT && forall i :: 0 <= i < 32 ==> (fl[i] <==> i < FL_INDEX_COUNT && sl[i] != Zero())
  }

  ghost predicate HeadsAre(heads: seq<int>, nul: int, lists: Lists) {
    |heads| == |lists| && forall c :: 0 <= c < |lists| ==> heads[c] == HeadOf(nul, lists[c])
  }

  // fl_bitmap, sl_bitmap and blocks describe the free lists.
  ghost predicate Indexes(fl: Word, sl: seq<Word>, heads: seq<int>, nul: int, lists: Lists) {
    && RowsIndex(fl, sl) && |lists| == CLASS_COUNT && HeadsAre(heads, nul, lists)
    && forall i :: 0 <= i < FL_INDEX_COUNT ==> RowIndexes(sl[i], lists, i)
  }

  lemma PositionOf(fl: int, sl: int, i: int, j: int)
    requires 0 <= sl < 32 && 0 <= j < 32
    ensures 32 * fl + sl == 32 * i + j <==> fl == i && sl == j
  {
  }

  // insert_free_block's index updates.
  lemma InsertIndexes(fl: Word, sl: seq<Word>, heads: seq<int>, nul: int, lists: Lists, i: int, j: int, a: int)
    requires Indexes(fl, sl, heads, nul, lists) && 0 <= i < FL_INDEX_COUNT && 0 <= j < 32
    ensures Indexes(Or(fl, Shl(One(), i)), sl[i := Or(sl[i], Shl(One(), j))], heads[32 * i + j := a], nul,
                    Push(lists, 32 * i + j, a))
  {
    BitmapUpdates(fl, i);
    BitmapUpdates(sl[i], j);
    hide Or, Shl, One;
    var c := 32 * i + j;
    var lists', sl' := Push(lists, c, a), sl[i := sl[i][j := true]];
    assert sl'[i][j];
    forall k | 0 <= k < FL_INDEX_COUNT ensures RowIndexes(sl'[k], lists', k) {
      assert RowIndexes(sl[k], lists, k);
      forall b | 0 <= b < 32 ensures sl'[k][b] <==> lists'[32 * k + b] != [] {
        PositionOf(i, j, k, b);
      }
    }
  }

  // remove_free_block's index updates when the list keeps its head.
  lemma KeepIndexes(fl: Word, sl: seq<Word>, heads: seq<int>, nul: int, lists: Lists, c: int, l: seq<int>)
    requires Indexes(fl, sl, heads, nul, lists) && 0 <= c < CLASS_COUNT
    requires lists[c] != [] && l != [] && l[0] == lists[c][0]
    ensures Indexes(fl, sl, heads, nul, lists[c := l])
  {
    forall k | 0 <= k < FL_INDEX_COUNT ensures RowIndexes(sl[k], lists[c := l], k) {
      assert RowIndexes(sl[k], lists, k);
    }
  }

  // The head goes and another block follows.
  lemma AdvanceIndexes(fl: Word, sl: seq<Word>, heads: seq<int>, nul: int, lists: Lists, c: int, l: seq<int>)
    requires Indexes(fl, sl, heads, nul, lists) && 0 <= c < CLASS_COUNT
    requires lists[c] != [] && l != []
    ensures Indexes(fl, sl, heads[c := l[0]], nul, lists[c := l])
  {
    forall k | 0 <= k < FL_INDEX_COUNT ensures RowIndexes(sl[k], lists[c := l], k) {
      assert RowIndexes(sl[k], lists, k);
    }
  }

  // The list becomes empty: its bit is cleared, and its row's when that was the
  // last one.
  lemma EmptyIndexes(fl: Word, sl: seq<Word>, heads: seq<int>, nul: int, lists: Lists, i: int, j: int)
    requires Indexes(fl, sl, heads, nul, lists) && 0 <= i < FL_INDEX_COUNT && 0 <= j < 32
    ensures var row := And(sl[i], Not(Shl(One(), j)));
      var fl' := if row == Zero() then And(fl, Not(Shl(One(), i))) else fl;
      Indexes(fl', sl[i := row], heads[32 * i + j := nul], nul, lists[32 * i + j := []])
  {
    BitmapUpdates(fl, i);
    BitmapUpdates(sl[i], j);
    hide And, Not, Shl, One;
    var c := 32 * i + j;
    var lists', sl' := lists[c := []], sl[i := sl[i][j := false]];
    forall k | 0 <= k < FL_INDEX_COUNT ensures RowIndexes(sl'[k], lists', k) {
      assert RowIndexes(sl[k], lists, k);
      forall b | 0 <= b < 32 ensures sl'[k][b] <==> lists'[32 * k + b] != [] {
        PositionOf(i, j, k, b);
      }
    }
    if sl'[i] != Zero() {
      assert sl'[i][Ffs(sl'[i])] && sl[i][Ffs(sl'[i])];
    }
  }

  // remove_free_block, for the block at position k of list (i, j).
  lemma RemoveIndexes(fl: Word, sl: seq<Word>, heads: seq<int>, nul: int, lists: Lists, i: int, j: int, k: int)
    requires Indexes(fl, sl, heads, nul, lists) && 0 <= i < FL_INDEX_COUNT && 0 <= j < 32
    requires |lists| == CLASS_COUNT && Spread(nul, lists[32 * i + j]) && 0 <= k < |lists[32 * i + j]|
    ensures |heads| == CLASS_COUNT && |sl| == FL_INDEX_COUNT
    ensures var c := 32 * i + j; var l := lists[c]; var next := NextLink(nul, l, k);
      var lists' := Drop(lists, c, l[k]); var row := And(sl[i], Not(Shl(One(), j)));
      && (heads[c] != l[k] ==> Indexes(fl, sl, heads, nul, lists'))
      && (heads[c] == l[k] && next != nul ==> Indexes(fl, sl, heads[c := next], nul, lists'))
      && (heads[c] == l[k] && next == nul ==>
            Indexes(if row == Zero() then And(fl, Not(Shl(One(), i))) else fl,
                    sl[i := row], heads[c := next], nul, lists'))
  {
    hide And, Not, Shl, One, RowIndexes;
    var c := 32 * i + j;
    var l := lists[c];
    assert heads[c] == l[0];
    WithoutAt(l, k);
    CutoutAt(l, k);
    var l' := Cutout(l, k);
    assert Drop(lists, c, l[k]) == lists[c := l'];
    if k > 0 {
      assert l[0] != l[k];
      KeepIndexes(fl, sl, heads, nul, lists, c, l');
    } else if |l| > 1 {
      assert l'[0] == l[1] && l[1] != nul;
      AdvanceIndexes(fl, sl, heads, nul, lists, c, l');
    } else {
      assert l' == [];
      EmptyIndexes(fl, sl, heads, nul, lists, i, j);
    }
  }

  // ---- The search ----

  // The scan's answer is the only list that is non-empty and first.
  lemma ScanIs(lists: Lists, c: int, k: int)
    requires 0 <= c <= k < |lists| && lists[k] != []
    requires forall j :: c <= j < k ==> lists[j] == []
    ensures FirstFrom(lists, c) == k
  {
  }

  // A bit at or after sl in row fl: the first one names the scan's list.
  lemma FoundInRow(fl: Word, sl: seq<Word>, heads: seq<int>, nul: int, lists: Lists, i: int, j: int)
    requires Indexes(fl, sl, heads, nul, lists) && 0 <= i < FL_INDEX_COUNT && 0 <= j < 32
    requires And(sl[i], Shl(AllOnes(), j)) != Zero()
    ensures FirstFrom(lists, 32 * i + j) == 32 * i + Ffs(And(sl[i], Shl(AllOnes(), j)))
  {
    var masked := And(sl[i], Shl(AllOnes(), j));
    BitmapUpdates(sl[i], j);
    assert forall b :: 0 <= b < 32 ==> masked[b] == (j <= b && sl[i][b]);
    hide And, Shl, AllOnes;
    var r := Ffs(masked);
    assert RowIndexes(sl[i], lists, i) && sl[i][r];
    forall k | 32 * i + j <= k < 32 * i + r ensures lists[k] == [] {
      assert !masked[k - 32 * i];
      assert lists[32 * i + (k - 32 * i)] == [];
    }
    ScanIs(lists, 32 * i + j, 32 * i + r);
  }

  // No such bit: the rest of the row is empty.
  lemma RowExhausted(sl: Word, lists: Lists, i: int, j: int)
    requires RowIndexes(sl, lists, i) && 0 <= j < 32
    requires And(sl, Shl(AllOnes(), j)) == Zero()
    ensures forall k :: 32 * i + j <= k < 32 * i + 32 ==> lists[k] == []
  {
    BitmapUpdates(sl, j);
    var masked := And(sl, Shl(AllOnes(), j));
    assert forall b :: 0 <= b < 32 ==> masked[b] == (j <= b && sl[b]);
    hide And, Shl, AllOnes;
    forall k | 32 * i + j <= k < 32 * i + 32 ensures lists[k] == [] {
      var b := k - 32 * i;
      assert !masked[b] && !sl[b];
      assert lists[32 * i + b] == [];
    }
  }

  // Rows whose bit in fl is clear are empty.
  lemma RowsEmpty(fl: Word, sl: seq<Word>, heads: seq<int>, nul: int, lists: Lists, i: int, n: int)
    requires Indexes(fl, sl, heads, nul, lists) && 0 <= i <= n <= FL_INDEX_COUNT
    requires forall r :: i <= r < n ==> !fl[r]
    ensures forall k :: 32 * i <= k < 32 * n ==> lists[k] == []
  {
    forall k | 32 * i <= k < 32 * n ensures lists[k] == [] {
      var r, b := k / 32, k % 32;
      assert sl[r] == Zero();
      assert RowIndexes(sl[r], lists, r) && !sl[r][b];
      assert lists[32 * r + b] == [];
    }
  }

  // A later row: the first bit of the first non-empty row names the list.
  lemma FoundInLaterRow(fl: Word, sl: seq<Word>, heads: seq<int>, nul: int, lists: Lists, i: int, j: int)
    requires Indexes(fl, sl, heads, nul, lists) && 0 <= i < FL_INDEX_COUNT && 0 <= j < 32
    requires And(sl[i], Shl(AllOnes(), j)) == Zero() && And(fl, Shl(AllOnes(), i + 1)) != Zero()
    ensures var r := Ffs(And(fl, Shl(AllOnes(), i + 1)));
      i < r < FL_INDEX_COUNT && sl[r] != Zero() && FirstFrom(lists, 32 * i + j) == 32 * r + Ffs(sl[r])
  {
    hide And, Shl, AllOnes, RowIndexes;
    RowExhausted(sl[i], lists, i, j);
    NextRow(fl, i);
    var r := Ffs(And(fl, Shl(AllOnes(), i + 1)));
    RowsEmpty(fl, sl, heads, nul, lists, i + 1, r);
    FirstOfRow(sl[r], lists, r);
    ScanIs(lists, 32 * i + j, 32 * r + Ffs(sl[r]));
  }

  lemma NextRow(fl: Word, i: int)
    requires 0 <= i < FL_INDEX_COUNT && And(fl, Shl(AllOnes(), i + 1)) != Zero()
    ensures var r := Ffs(And(fl, Shl(AllOnes(), i + 1)));
      i < r < 32 && fl[r] && forall q :: i + 1 <= q < r ==> !fl[q]
  {
    BitmapUpdates(fl, i + 1);
    var masked := And(fl, Shl(AllOnes(), i + 1));
    assert forall b :: 0 <= b < 32 ==> masked[b] == (i + 1 <= b && fl[b]);
  }

  lemma FirstOfRow(row: Word, lists: Lists, r: int)
    requires RowIndexes(row, lists, r) && row != Zero()
    ensures 0 <= Ffs(row) < 32 && lists[32 * r + Ffs(row)] != []
    ensures forall k :: 32 * r <= k < 32 * r + Ffs(row) ==> lists[k] == []
  {
    assert row[Ffs(row)];
    forall k | 32 * r <= k < 32 * r + Ffs(row) ensures lists[k] == [] {
      assert !row[k - 32 * r];
      assert lists[32 * r + (k - 32 * r)] == [];
    }
  }

  // Nothing left at all: the scan runs off the end.
  lemma NotFound(fl: Word, sl: seq<Word>, heads: seq<int>, nul: int, lists: Lists, i: int, j: int)
    requires Indexes(fl, sl, heads, nul, lists) && 0 <= i < FL_INDEX_COUNT && 0 <= j < 32
    requires And(sl[i], Shl(AllOnes(), j)) == Zero() && And(fl, Shl(AllOnes(), i + 1)) == Zero()
    ensures FirstFrom(lists, 32 * i + j) == CLASS_COUNT
  {
    RowExhausted(sl[i], lists, i, j);
    BitmapUpdates(fl, i + 1);
    var masked := And(fl, Shl(AllOnes(), i + 1));
    assert forall b :: 0 <= b < 32 ==> masked[b] == (i + 1 <= b && fl[b]);
    hide And, Shl, AllOnes;
    forall q | i + 1 <= q < FL_INDEX_COUNT ensures !fl[q] { assert !masked[q]; }
    RowsEmpty(fl, sl, heads, nul, lists, i + 1, FL_INDEX_COUNT);
  }

  // The lists determine the bitmaps and the heads.
  lemma IndexIsUnique(fl: Word, sl: seq<Word>, heads: seq<int>, fl': Word, sl': seq<Word>, heads': seq<int>,
                      nul: int, lists: Lists)
    requires Indexes(fl, sl, heads, nul, lists) && Indexes(fl', sl', heads', nul, lists)
    ensures fl == fl' && sl == sl' && heads == heads'
  {
    forall i | 0 <= i < FL_INDEX_COUNT ensures sl[i] == sl'[i] {
      assert RowIndexes(sl[i], lists, i) && RowIndexes(sl'[i], lists, i);
      forall j | 0 <= j < 32 ensures sl[i][j] == sl'[i][j] {
      }
    }
    forall i | 0 <= i < 32 ensures fl[i] == fl'[i] {
    }
  }
}
