// sdk/string/itoa.c: printing numbers in base 10 and base 16.
module Itoa {
  import opened Param

  const INT64_MIN := -0x8000_0000_0000_0000
  const INT64_MAX := 0x7fff_ffff_ffff_ffff
  const UINT64_MAX := 0xffff_ffff_ffff_ffff

  // ---- Numerals ----

  const DIGITS := "0123456789ABCDEF"

  // Digits of n, lowest first; none for zero.
  function LowFirst(n: nat, base: nat): (s: string)
    requires 2 <= base <= 16
    ensures n == 0 <==> s == []
    decreases n
  {
    if n == 0 then [] else [DIGITS[n % base]] + LowFirst(n / base, base)
  }

  function Reverse(s: string): (r: string)
    ensures |r| == |s|
    ensures forall k :: 0 <= k < |s| ==> r[k] == s[|s| - 1 - k]
  {
    seq(|s|, k requires 0 <= k < |s| => s[|s| - 1 - k])
  }

  // What itoa(value, buf, 10) and itoa(value, buf, 16) leave in the buffer.
  function Decimal(value: int): string {
    if value == 0 then "0"
    else if value < 0 then "-" + Reverse(LowFirst(-value, 10))
    else Reverse(LowFirst(value, 10))
  }

  function Hex(n: nat): string {
    if n < 16 then "0x0" + [DIGITS[n]] else "0x" + Reverse(LowFirst(n, 16))
  }

  // ---- Reading them back ----

  function DigitValue(c: char): int {
    if '0' <= c <= '9' then c as int - '0' as int
    else if 'A' <= c <= 'F' then c as int - 'A' as int + 10
    else -1
  }

  // Positional value, by Horner's rule.
  function Value(s: string, base: nat): int
    decreases |s|
  {
    if s == [] then 0 else Value(s[..|s| - 1], base) * base + DigitValue(s[|s| - 1])
  }

  function ParseDecimal(s: string): int {
    if s != [] && s[0] == '-' then -Value(s[1..], 10) else Value(s, 10)
  }

  function ParseHex(s: string): int {
    if |s| >= 2 && s[0] == '0' && s[1] == 'x' then Value(s[2..], 16) else -1
  }

  lemma DigitsRead(d: nat)
    requires d < 16
    ensures DigitValue(DIGITS[d]) == d && DIGITS[d] != '-' && DIGITS[d] != '\0'
  {
    var all := [0, 1, 2, 3, 4, 5, 6, 7, 8, 9, 10, 11, 12, 13, 14, 15];
    assert all[d] == d;
    if d < 10 {
      assert DIGITS[d] as int == '0' as int + d;
    } else {
      assert DIGITS[d] as int == 'A' as int + (d - 10);
    }
  }

  lemma LowFirstStep(n: nat, base: nat)
    requires 2 <= base <= 16 && n > 0
    ensures LowFirst(n, base) == [DIGITS[n % base]] + LowFirst(n / base, base)
  {
  }

  lemma ReverseEnds(c: char, s: string)
    ensures Reverse([c] + s) == Reverse(s) + [c]
    ensures Reverse(s + [c]) == [c] + Reverse(s)
  {
  }

  lemma ValueEnds(s: string, c: char, base: nat)
    ensures Value(s + [c], base) == Value(s, base) * base + DigitValue(c)
  {
    assert (s + [c])[..|s|] == s;
  }

  // Characters of numerals: neither a sign nor a terminator.
  ghost predicate Plain(s: string) {
    forall k :: 0 <= k < |s| ==> s[k] != '-' && s[k] != '\0'
  }

  lemma PlainReverse(s: string)
    requires Plain(s)
    ensures Plain(Reverse(s))
  {
  }

  lemma {:induction false} LowFirstReads(n: nat, base: nat)
    requires 2 <= base <= 16
    ensures Value(Reverse(LowFirst(n, base)), base) == n && Plain(LowFirst(n, base))
    decreases n
  {
    hide LowFirst, Reverse, DigitValue;
    if n > 0 {
      var rest := LowFirst(n / base, base);
      LowFirstReads(n / base, base);
      DigitsRead(n % base);
      LowFirstStep(n, base);
      ReverseEnds(DIGITS[n % base], rest);
      ValueEnds(Reverse(rest), DIGITS[n % base], base);
      hide Value;
      QuotientAndRest(n, base);
    } else {
      assert LowFirst(n, base) == [];
    }
  }

  lemma QuotientAndRest(n: nat, base: nat)
    requires base > 0
    ensures n == n / base * base + n % base
  {
  }

  // Base 10 parses back for every value, base 16 for every unsigned one.
  lemma DecimalRoundTrip(value: int)
    ensures ParseDecimal(Decimal(value)) == value
  {
    var s := Reverse(LowFirst(if value < 0 then -value else value, 10));
    LowFirstReads(if value < 0 then -value else value, 10);
    PlainReverse(LowFirst(if value < 0 then -value else value, 10));
    if value < 0 {
      hide LowFirst, Reverse, Value;
      assert Decimal(value)[1..] == s;
    } else if value == 0 {
      ZeroReads();
    } else {
      hide LowFirst, Reverse, Value;
    }
  }

  lemma ZeroReads()
    ensures ParseDecimal("0") == 0
  {
    ValueEnds("", '0', 10);
    assert "" + ['0'] == "0";
    hide Value;
    assert Value("", 10) == 0;
  }

  lemma HexRoundTrip(n: nat)
    ensures ParseHex(Hex(n)) == n
  {
    LowFirstReads(n, 16);
    if n < 16 {
      DigitsRead(n);
      ValueEnds("", '0', 16);
      ValueEnds("0", DIGITS[n], 16);
      assert "" + ['0'] == "0" && Value("", 16) == 0;
      hide Value;
      assert Hex(n)[2..] == "0" + [DIGITS[n]];
    } else {
      hide LowFirst, Reverse, Value;
      assert Hex(n)[2..] == Reverse(LowFirst(n, 16));
    }
  }

  // Numerals have no zeros in front, except that base 16 has two digits at least.
  lemma NoZerosInFront(value: int, n: nat)
    ensures value != 0 ==>
      var sign := if value < 0 then 1 else 0; sign < |Decimal(value)| && Decimal(value)[sign] != '0'
    ensures value == 0 ==> Decimal(value) == "0"
    ensures if n < 16 then |Hex(n)| == 4 else |Hex(n)| >= 4 && Hex(n)[2] != '0'
  {
    hide LowFirst, Reverse;
    if value != 0 { HighestIsNotZero(if value < 0 then -value else value, 10); }
    if n >= 16 {
      HighestIsNotZero(n, 16);
      AtLeastTwo(n);
      assert Hex(n)[2] == Reverse(LowFirst(n, 16))[0];
    }
  }

  lemma {:induction false} HighestIsNotZero(n: nat, base: nat)
    requires 2 <= base <= 16 && n > 0
    ensures LowFirst(n, base) != "" && LowFirst(n, base)[|LowFirst(n, base)| - 1] != '0'
    ensures |Reverse(LowFirst(n, base))| > 0 && Reverse(LowFirst(n, base))[0] != '0'
    decreases n
  {
    var rest := LowFirst(n / base, base);
    LowFirstStep(n, base);
    hide LowFirst;
    Shrinks(n, base);
    if n / base > 0 {
      HighestIsNotZero(n / base, base);
    } else {
      Remains(n, base);
      DigitIsNotZero(n % base);
    }
  }

  lemma Remains(n: nat, base: nat)
    requires base > 0 && n / base == 0
    ensures n % base == n
  {
  }

  lemma DigitIsNotZero(d: nat)
    requires 0 < d < 16
    ensures DIGITS[d] != '0'
  {
    DigitsRead(d);
  }

  function Power(base: nat, k: nat): nat {
    if k == 0 then 1 else base * Power(base, k - 1)
  }

  lemma {:induction false} LowFirstLength(n: nat, base: nat, k: nat)
    requires 2 <= base <= 16 && n < Power(base, k)
    ensures |LowFirst(n, base)| <= k
    decreases k
  {
    if n > 0 {
      assert n / base < Power(base, k - 1) by {
        if n / base >= Power(base, k - 1) { AtLeast(n, base, Power(base, k - 1)); }
      }
      LowFirstLength(n / base, base, k - 1);
    }
  }

  lemma AtLeast(n: nat, base: nat, p: nat)
    requires base > 0 && n / base >= p
    ensures n >= base * p
  {
    assert n >= base * (n / base);
    Monotone(base, p, n / base);
  }

  lemma Monotone(base: nat, p: nat, q: nat)
    requires p <= q
    ensures base * p <= base * q
  {
  }

  // With the terminating NUL: 21 bytes are enough in base 10, 19 in base 16.
  lemma Lengths(value: int, n: nat)
    requires INT64_MIN < value <= INT64_MAX && n <= UINT64_MAX
    ensures 1 <= |Decimal(value)| <= 20 && 4 <= |Hex(n)| <= 18
  {
    Powers();
    hide Power, LowFirst;
    LowFirstLength(if value < 0 then -value else value, 10, 19);
    LowFirstLength(n, 16, 16);
    if n >= 16 { AtLeastTwo(n); }
  }

  lemma {:induction false} PowerSum(base: nat, j: nat, k: nat)
    ensures Power(base, j + k) == Power(base, j) * Power(base, k)
    decreases k
  {
    if k > 0 {
      PowerSum(base, j, k - 1);
      assert Power(base, j + k) == base * Power(base, j + (k - 1));
    }
  }

  lemma Powers()
    ensures Power(10, 19) == 10_000_000_000_000_000_000
    ensures Power(16, 16) == 0x1_0000_0000_0000_0000
  {
    assert Power(10, 1) == 10 && Power(10, 2) == 100 && Power(16, 1) == 16 && Power(16, 2) == 256;
    hide Power;
    PowerSum(10, 2, 2);
    PowerSum(10, 4, 4);
    PowerSum(10, 8, 8);
    PowerSum(10, 2, 1);
    PowerSum(10, 16, 3);
    PowerSum(16, 2, 2);
    PowerSum(16, 4, 4);
    PowerSum(16, 8, 8);
  }

  lemma AtLeastTwo(n: nat)
    requires n >= 16
    ensures |LowFirst(n, 16)| >= 2
  {
    assert LowFirst(n, 16) == [DIGITS[n % 16]] + LowFirst(n / 16, 16);
  }

  // No NUL before the terminator.
  ghost predicate NulFree(s: string) {
    forall k :: 0 <= k < |s| ==> s[k] != '\0'
  }

  lemma PlainIsNulFree(s: string, prefix: string)
    requires Plain(s) && NulFree(prefix)
    ensures NulFree(prefix + s)
  {
  }

  lemma DecimalNulFree(value: int)
    ensures NulFree(Decimal(value))
  {
    hide LowFirst, Reverse, Value;
    var n := if value < 0 then -value else value;
    LowFirstReads(n, 10);
    PlainReverse(LowFirst(n, 10));
    PlainIsNulFree(Reverse(LowFirst(n, 10)), if value < 0 then "-" else "");
    assert "" + Reverse(LowFirst(n, 10)) == Reverse(LowFirst(n, 10));
  }

  lemma HexNulFree(n: nat)
    ensures NulFree(Hex(n))
  {
    hide LowFirst, Reverse, Value;
    if n < 16 {
      DigitsRead(n);
    } else {
      LowFirstReads(n, 16);
      PlainReverse(LowFirst(n, 16));
      PlainIsNulFree(Reverse(LowFirst(n, 16)), "0x");
    }
  }

  // ---- The conversions ----

  // A string in a buffer, with its terminator.
  ghost predicate Holds(buf: array<char>, s: string)
    reads buf
  {
    |s| < buf.Length && buf[..|s|] == s && buf[|s|] == '\0'
  }

  // The closing loop of both conversions: unreverse buf[0..last].
  method Unreverse(buf: array<char>, last: nat)
    requires last + 1 < buf.Length && buf[last + 1] == '\0'
    modifies buf
    ensures Holds(buf, Reverse(old(buf[..last + 1])))
  {
    var i, j := last, 0;
    ghost var before := buf[..];
    while j < i
      invariant 0 <= j <= i + 1 && i + j == last
      invariant forall k :: 0 <= k < j || i < k <= last ==> buf[k] == before[last - k]
      invariant forall k :: j <= k <= i || last < k < buf.Length ==> buf[k] == before[k]
    {
      var tmp := buf[j];
      buf[j] := buf[i];
      buf[i] := tmp;
      j := j + 1;
      i := i - 1;
    }
    assert buf[..last + 1] == Reverse(before[..last + 1]);
  }

  // The digit loops.
  method PutDigits(value0: nat, base: nat, buf: array<char>) returns (i: nat)
    requires (base == 10 || base == 16) && |LowFirst(value0, base)| <= buf.Length
    modifies buf
    ensures i == |LowFirst(value0, base)| && buf[..i] == LowFirst(value0, base)
    ensures forall k :: i <= k < buf.Length ==> buf[k] == old(buf[k])
  {
    hide LowFirst;
    var value: nat := value0;
    i := 0;
    while value > 0
      invariant i <= buf.Length && buf[..i] + LowFirst(value, base) == LowFirst(value0, base)
      invariant forall k :: i <= k < buf.Length ==> buf[k] == old(buf[k])
    {
      LowFirstStep(value, base);
      ghost var done, rest := buf[..i], LowFirst(value / base, base);
      assert |done + ([DIGITS[value % base]] + rest)| == |LowFirst(value0, base)|;
      buf[i] := DIGITS[value % base];
      assert buf[..i + 1] == done + [DIGITS[value % base]];
      assert done + [DIGITS[value % base]] + rest == done + ([DIGITS[value % base]] + rest);
      i := i + 1;
      Shrinks(value, base);
      value := value / base;
    }
  }

  lemma Shrinks(value: nat, base: nat)
    requires value > 0 && base >= 2
    ensures 0 <= value / base < value
  {
  }

  // itoa_base10_convert, in any buffer of 21 bytes; negating the minimum overflows and is excluded.
  method ConvertBase10(value0: int, buf: array<char>)
    requires INT64_MIN < value0 <= INT64_MAX && buf.Length >= 21
    modifies buf
    ensures Holds(buf, Decimal(value0))
  {
    hide LowFirst, Reverse, Hex;
    Lengths(value0, 0);
    if value0 == 0 {
      buf[0] := '0';
      buf[1] := '\0';
      assert buf[..1] == "0";
      return;
    }
    var value, isNegative := value0, false;
    if value < 0 {
      value := value * -1;
      isNegative := true;
    }
    ghost var digits := LowFirst(value, 10);
    var i := PutDigits(value, 10, buf);
    if isNegative {
      buf[i] := '-';
      i := i + 1;
    }
    buf[i] := '\0';
    i := i - 1;
    ghost var reversed := if isNegative then digits + ['-'] else digits;
    assert buf[..i + 1] == reversed;
    Unreverse(buf, i);
    ReverseEnds('-', digits);
  }

  // itoa_convert_base16, in any buffer of 19 bytes.
  method ConvertBase16(n: nat, buf: array<char>)
    requires n <= UINT64_MAX && buf.Length >= 19
    modifies buf
    ensures Holds(buf, Hex(n))
  {
    hide LowFirst, Reverse, Decimal, Hex;
    Lengths(0, n);
    if n == 0 {
      HexOfZero();
      buf[0], buf[1], buf[2], buf[3], buf[4] := '0', 'x', '0', '0', '\0';
      assert buf[..4] == "0x00";
      return;
    }
    var pad := n < 16;
    HexFromDigits(n);
    var i := PutDigits(n, 16, buf);
    ghost var digits := LowFirst(n, 16);
    if pad {
      buf[i] := '0';
      i := i + 1;
    }
    buf[i] := 'x';
    i := i + 1;
    buf[i] := '0';
    i := i + 1;
    buf[i] := '\0';
    i := i - 1;
    ghost var padded := if pad then digits + ['0'] else digits;
    assert buf[..i + 1] == padded + ['x'] + ['0'];
    Unreverse(buf, i);
  }

  lemma HexOfZero()
    ensures Hex(0) == "0x00"
  {
  }

  // Lowest digit first, then padding and prefix: the reverse is the numeral.
  lemma HexFromDigits(n: nat)
    requires n > 0
    ensures var digits := LowFirst(n, 16); var padded := if n < 16 then digits + ['0'] else digits;
      Reverse(padded + ['x'] + ['0']) == Hex(n) && (n < 16 ==> |digits| == 1)
  {
    var digits := LowFirst(n, 16);
    var padded := if n < 16 then digits + ['0'] else digits;
    if n < 16 { OneDigit(n); }
    hide LowFirst, Reverse;
    ReverseEnds('0', padded + ['x']);
    ReverseEnds('x', padded);
    if n < 16 { ReverseEnds('0', digits); }
    Prefix(Reverse(padded), DIGITS[n % 16]);
  }

  lemma Prefix(s: string, d: char)
    ensures ['0'] + (['x'] + s) == "0x" + s
    ensures ['0'] + (['x'] + (['0'] + [d])) == "0x0" + [d]
  {
  }

  lemma OneDigit(n: nat)
    requires 0 < n < 16
    ensures LowFirst(n, 16) == [DIGITS[n]] && Reverse(LowFirst(n, 16)) == [DIGITS[n]]
  {
    assert LowFirst(n / 16, 16) == [];
    assert n % 16 == n;
  }

  // itoa: a signed value in base 10, its 64-bit pattern in base 16, otherwise
  // NULL and nothing written.
  method Itoa(value: int, buf: array<char>, base: int) returns (ok: bool)
    requires INT64_MIN <= value <= INT64_MAX && buf.Length >= 21
    requires base == 10 ==> value != INT64_MIN
    modifies buf
    ensures ok <==> base == 10 || base == 16
    ensures base == 10 ==> Holds(buf, Decimal(value))
    ensures base == 16 ==> Holds(buf, Hex(value % SIZE_T_RANGE))
    ensures !ok ==> buf[..] == old(buf[..])
  {
    hide Decimal, Hex, Holds;
    ok := base == 10 || base == 16;
    if base == 10 {
      ConvertBase10(value, buf);
    } else if base == 16 {
      ConvertBase16(value % SIZE_T_RANGE, buf);
    }
  }
}
