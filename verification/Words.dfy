// An `unsigned int` as its vector of 32 bits, least significant first, and the
// find-first-set / find-last-set routines of sys/hive/mm/tlsf.c over it.
module Words {
  import opened Arith

  type Word = w: seq<bool> | |w| == 32 witness seq(32, _ => false)

  function Zero(): Word { seq(32, _ => false) }
  function AllOnes(): Word { seq(32, _ => true) }
  function One(): Word { Zero()[0 := true] }

  function And(a: Word, b: Word): Word { seq(32, i requires 0 <= i < 32 => a[i] && b[i]) }
  function Or(a: Word, b: Word): Word { seq(32, i requires 0 <= i < 32 => a[i] || b[i]) }
  function Not(a: Word): Word { seq(32, i requires 0 <= i < 32 => !a[i]) }
  function Shl(a: Word, k: nat): Word
    requires k < 32
  {
    seq(32, i requires 0 <= i < 32 => k <= i && a[i - k])
  }

  // a + 1 modulo 2^32: the carry reaches bit i when every lower bit is set.
  function PlusOne(a: Word): Word {
    seq(32, i requires 0 <= i < 32 => if forall j :: 0 <= j < i ==> a[j] then !a[i] else a[i])
  }

  function Value(w: seq<bool>): nat {
    if |w| == 0 then 0 else (if w[0] then 1 else 0) + 2 * Value(w[1..])
  }

  // __builtin_ffs(word) - 1: the lowest set bit, -1 for zero.
  function Ffs(w: Word): (r: int)
    ensures r == -1 <==> w == Zero()
    ensures r != -1 ==> 0 <= r < 32 && w[r] && forall j :: 0 <= j < r ==> !w[j]
  {
    LowestFrom(w, 0)
  }

  function LowestFrom(w: Word, i: nat): (r: int)
    requires i <= 32
    requires forall j :: 0 <= j < i ==> !w[j]
    ensures r == -1 <==> w == Zero()
    ensures r != -1 ==> i <= r < 32 && w[r] && forall j :: 0 <= j < r ==> !w[j]
    decreases 32 - i
  {
    if i == 32 then assert w == Zero(); -1
    else if w[i] then i
    else LowestFrom(w, i + 1)
  }

  // 31 - __builtin_clz(word): the highest set bit, -1 for zero.
  function Fls(w: Word): (r: int)
    ensures r == -1 <==> w == Zero()
    ensures r != -1 ==> 0 <= r < 32 && w[r] && forall j :: r < j < 32 ==> !w[j]
  {
    HighestBelow(w, 32)
  }

  function HighestBelow(w: Word, i: nat): (r: int)
    requires i <= 32
    requires forall j :: i <= j < 32 ==> !w[j]
    ensures r == -1 <==> w == Zero()
    ensures r != -1 ==> 0 <= r < i && w[r] && forall j :: r < j < 32 ==> !w[j]
    decreases i
  {
    if i == 0 then assert w == Zero(); -1
    else if w[i - 1] then i - 1
    else HighestBelow(w, i - 1)
  }

  // On a non-zero word, fls is the binary logarithm of its value.
  lemma FlsIsLog2(w: Word)
    requires w != Zero()
    ensures Value(w) >= 1 && Fls(w) == Log2(Value(w))
  {
    ValueBounds(w, Fls(w));
    Log2Unique(Value(w), Fls(w));
  }

  lemma {:induction false} ValueBounds(w: seq<bool>, r: int)
    requires 0 <= r < |w| && w[r]
    requires forall j :: r < j < |w| ==> !w[j]
    ensures Pow2(r) <= Value(w) < 2 * Pow2(r)
    decreases |w|
  {
    if r == 0 {
      ValueOfZeros(w[1..]);
    } else {
      ValueBounds(w[1..], r - 1);
    }
  }

  lemma {:induction false} ValueOfZeros(w: seq<bool>)
    requires forall j :: 0 <= j < |w| ==> !w[j]
    ensures Value(w) == 0
  {
    if |w| > 0 { ValueOfZeros(w[1..]); }
  }

  // Progress of tlsf_fls_generic: the word has been shifted left by s, nothing
  // was lost, and its highest set bit lies in the top k positions.
  ghost predicate Narrowed(word0: Word, word: Word, bit: int, s: nat, k: nat) {
    && 1 <= k && s + k <= 32
    && (forall j :: 0 <= j < 32 ==> word[j] == (s <= j && word0[j - s]))
    && (forall j :: 32 - s <= j < 32 ==> !word0[j])
    && bit == 32 - s - (if word0 == Zero() then 1 else 0)
    && (if word0 == Zero() then s == 32 - k else exists j :: 32 - k <= j < 32 && word[j])
  }

  // tlsf_fls_generic: five halving steps.
  method FlsGeneric(word0: Word) returns (bit: int)
    ensures bit == Fls(word0) + 1
  {
    var word := word0;
    bit := 32;
    if word == Zero() { bit := bit - 1; }
    ghost var s := 0;
    NarrowedInitially(word0);
    word, bit, s := FlsStep(word0, word, bit, s, 16);
    word, bit, s := FlsStep(word0, word, bit, s, 8);
    word, bit, s := FlsStep(word0, word, bit, s, 4);
    word, bit, s := FlsStep(word0, word, bit, s, 2);
    word, bit, s := FlsStep(word0, word, bit, s, 1);
    NarrowedToOne(word0, word, bit, s);
  }

  lemma NarrowedInitially(w: Word)
    ensures Narrowed(w, w, if w == Zero() then 31 else 32, 0, 32)
  {
    if w != Zero() { assert w[Ffs(w)]; }
  }

  lemma NarrowedToOne(word0: Word, word: Word, bit: int, s: nat)
    requires Narrowed(word0, word, bit, s, 1)
    ensures bit == Fls(word0) + 1
  {
    if word0 != Zero() { assert word[31]; }
  }

  // One `if (!(word & top-k-bits)) { word <<= k; bit -= k; }` step.
  method FlsStep(ghost word0: Word, word: Word, bit: int, ghost s: nat, k: nat)
    returns (word': Word, bit': int, ghost s': nat)
    requires k >= 1 && Narrowed(word0, word, bit, s, 2 * k)
    ensures Narrowed(word0, word', bit', s', k)
  {
    hide HighestBelow, LowestFrom;
    word', bit', s' := word, bit, s;
    var top := And(word, Shl(AllOnes(), 32 - k));
    if top == Zero() {
      assert forall j :: 0 <= j < 32 ==> top[j] == (32 - k <= j && word[j]);
      word', bit', s' := Shl(word, k), bit - k, s + k;
      forall j | 32 - s' <= j < 32 ensures !word0[j] {
        if j < 32 - s { assert !top[j + s]; assert word[j + s] == word0[j]; }
      }
      if word0 != Zero() {
        var j :| 32 - 2 * k <= j < 32 && word[j];
        assert !top[j];
        assert word'[j + k];
      }
    } else {
      assert top[Ffs(top)];
      assert word[Ffs(top)];
    }
  }

  // tlsf_ffs of the generic fallback: fls of word & (~word + 1).
  method FfsGeneric(word: Word) returns (r: int)
    ensures r == Ffs(word)
  {
    var lowest := And(word, PlusOne(Not(word)));
    LowestBitIsolated(word);
    r := FlsGeneric(lowest);
    r := r - 1;
    if word != Zero() { FlsOfSingleBit(Ffs(word)); }
  }

  lemma FlsOfSingleBit(r: nat)
    requires r < 32
    ensures Fls(Zero()[r := true]) == r
  {
    assert Zero()[r := true][r];
  }

  lemma LowestBitIsolated(word: Word)
    ensures And(word, PlusOne(Not(word)))
         == if word == Zero() then Zero() else Zero()[Ffs(word) := true]
  {
    if word != Zero() {
      var r := Ffs(word);
      var n := Not(word);
      forall i | 0 <= i < 32
        ensures And(word, PlusOne(n))[i] == (i == r)
      {
        if i > r { assert !n[r]; }
      }
      assert And(word, PlusOne(n)) == Zero()[r := true];
    } else {
      assert And(word, PlusOne(Not(word))) == Zero();
    }
  }

  // The three updates the free-list index performs on its bitmaps.
  lemma BitmapUpdates(w: Word, i: nat)
    requires i < 32
    ensures Or(w, Shl(One(), i)) == w[i := true]
    ensures And(w, Not(Shl(One(), i))) == w[i := false]
    ensures forall j :: 0 <= j < 32 ==> And(w, Shl(AllOnes(), i))[j] == (i <= j && w[j])
  {
  }
}
