// sdk/string/vsnprintf.c: the bounded formatter against its unbounded meaning.
module Printf {
  import opened Arith
  import opened Itoa

  // The variadic arguments, by the type va_arg asks for. A word is passed as
  // uint64_t, an integer as int64_t other than the minimum.
  datatype Arg = CharArg(c: char) | IntArg(i: int) | WordArg(w: nat) | StrArg(s: string)

  // One character of output, and whether it was copied from the format.
  datatype Out = Out(c: char, literal: bool)

  // ---- What a format means ----

  // "%0N": the index after the digits and the width, which is a uint8_t that
  // keeps what an earlier conversion left in it.
  function Width(fmt: string, i: nat, pad: nat): (r: (nat, nat))
    requires i <= |fmt|
    ensures i <= r.0 <= |fmt|
  {
    if i < |fmt| && fmt[i] == '0' then Digits(fmt, i + 1, pad) else (i, pad)
  }

  function Digits(fmt: string, i: nat, pad: nat): (r: (nat, nat))
    requires i <= |fmt|
    ensures i <= r.0 <= |fmt|
    decreases |fmt| - i
  {
    if i < |fmt| && '0' <= fmt[i] <= '9' then
      Digits(fmt, i + 1, (pad * 10 + (fmt[i] as int - '0' as int)) % 256)
    else (i, pad)
  }

  predicate TakesArg(c: char) {
    c == 'c' || c == 'd' || c == 'p' || c == 'x' || c == 's'
  }

  // The argument is of the type the conversion asks for.
  predicate Suits(c: char, arg: Arg) {
    match c
    case 'c' => arg.CharArg?
    case 'd' => arg.IntArg? && INT64_MIN < arg.i <= INT64_MAX
    case 'p' => arg.WordArg? && arg.w <= UINT64_MAX
    case 'x' => arg.WordArg? && arg.w <= UINT64_MAX
    case 's' => arg.StrArg? && forall k :: 0 <= k < |arg.s| ==> arg.s[k] != '\0'
    case _ => true
  }

  // From position i on, every '%' is followed by a conversion, and arguments of
  // the right type are there from a on.
  predicate WellFormed(fmt: string, i: nat, args: seq<Arg>, a: nat)
    requires i <= |fmt|
    decreases |fmt| - i
  {
    if i == |fmt| then true
    else if fmt[i] != '%' then fmt[i] != '\0' && WellFormed(fmt, i + 1, args, a)
    else
      var j := Width(fmt, i + 1, 0).0;
      && j < |fmt| && fmt[j] != '\0'
      && (TakesArg(fmt[j]) ==> a < |args| && Suits(fmt[j], args[a]))
      && WellFormed(fmt, j + 1, args, if TakesArg(fmt[j]) then a + 1 else a)
  }

  function Zeros(n: int): string
    decreases n
  {
    if n <= 0 then "" else "0" + Zeros(n - 1)
  }

  // What one conversion prints; unknown ones print nothing.
  function Converted(c: char, args: seq<Arg>, a: nat, pad: nat): string
    requires TakesArg(c) ==> a < |args| && Suits(c, args[a])
  {
    match c
    case 'c' => [args[a].c]
    case '%' => "%"
    case 'd' => Zeros(pad - |Decimal(args[a].i)|) + Decimal(args[a].i)
    case 'p' => "0x" + Zeros(18 - |Hex(args[a].w)|) + AfterPrefix(Hex(args[a].w))
    case 'x' => AfterPrefix(Hex(args[a].w))
    case 's' => args[a].s
    case _ => ""
  }

  function AfterPrefix(s: string): string { if |s| >= 2 then s[2..] else "" }

  // %d uses the width up; any other conversion passes it on.
  function PadAfter(c: char, pad: nat): nat { if c == 'd' then 0 else pad }

  function Mark(s: string, literal: bool): (r: seq<Out>)
    ensures |r| == |s|
  {
    seq(|s|, k requires 0 <= k < |s| => Out(s[k], literal))
  }

  function Text(out: seq<Out>): (s: string)
    ensures |s| == |out|
  {
    seq(|out|, k requires 0 <= k < |out| => out[k].c)
  }

  // The unbounded expansion of the format from position i on.
  function Expand(fmt: string, i: nat, args: seq<Arg>, a: nat, pad: nat): seq<Out>
    requires i <= |fmt| && WellFormed(fmt, i, args, a)
    decreases |fmt| - i
  {
    if i == |fmt| then []
    else if fmt[i] != '%' then [Out(fmt[i], true)] + Expand(fmt, i + 1, args, a, pad)
    else
      WidthPlace(fmt, i + 1, 0, pad);
      var (j, pad') := Width(fmt, i + 1, pad);
      var c := fmt[j];
      Mark(Converted(c, args, a, pad'), false)
      + Expand(fmt, j + 1, args, if TakesArg(c) then a + 1 else a, PadAfter(c, pad'))
  }

  // Where the digits end does not depend on the width so far.
  lemma WidthPlace(fmt: string, i: nat, p: nat, q: nat)
    requires i <= |fmt|
    ensures Width(fmt, i, p).0 == Width(fmt, i, q).0
  {
    if i < |fmt| && fmt[i] == '0' { DigitsPlace(fmt, i + 1, p, q); }
  }

  lemma {:induction false} DigitsPlace(fmt: string, i: nat, p: nat, q: nat)
    requires i <= |fmt|
    ensures Digits(fmt, i, p).0 == Digits(fmt, i, q).0
    decreases |fmt| - i
  {
    if i < |fmt| && '0' <= fmt[i] <= '9' {
      var d := fmt[i] as int - '0' as int;
      DigitsPlace(fmt, i + 1, (p * 10 + d) % 256, (q * 10 + d) % 256);
    }
  }

  // ---- The width a format asks for ----

  lemma {:induction false} DigitsAre(fmt: string, i: nat, pad: nat)
    requires i <= |fmt|
    ensures var j := Digits(fmt, i, pad).0;
      AllDigits(fmt[i..j]) && (j < |fmt| ==> !('0' <= fmt[j] <= '9'))
    decreases |fmt| - i
  {
    if i < |fmt| && '0' <= fmt[i] <= '9' {
      var j := Digits(fmt, i, pad).0;
      DigitsAre(fmt, i + 1, (pad * 10 + (fmt[i] as int - '0' as int)) % 256);
      assert fmt[i..j] == [fmt[i]] + fmt[i + 1..j];
    }
  }

  // The width is the number written in the digits, behind what was left from
  // before, modulo 256.
  lemma {:induction false} WidthIsNumber(fmt: string, i: nat, pad: nat)
    requires i <= |fmt| && pad < 256
    ensures var (j, w) := Digits(fmt, i, pad);
      w == (pad * Power(10, j - i) + Value(fmt[i..j], 10)) % 256
    decreases |fmt| - i
  {
    hide Power, Value, Digits;
    if i < |fmt| && '0' <= fmt[i] <= '9' {
      var d := fmt[i] as int - '0' as int;
      var j := Digits(fmt, i, pad).0;
      DigitsStep(fmt, i, pad);
      var rest := fmt[i + 1..j];
      WidthIsNumber(fmt, i + 1, (pad * 10 + d) % 256);
      assert Value(fmt[i..j], 10) == d * Power(10, |rest|) + Value(rest, 10) by {
        ValueStarts(fmt[i], rest);
        assert fmt[i..j] == [fmt[i]] + rest;
      }
      PowerStep(10, |rest|);
      Accumulates(pad, d, Power(10, |rest|), Value(rest, 10));
    } else {
      NoDigits(fmt, i, pad);
    }
  }

  lemma DigitsStep(fmt: string, i: nat, pad: nat)
    requires i < |fmt| && '0' <= fmt[i] <= '9'
    ensures var d := fmt[i] as int - '0' as int;
      Digits(fmt, i, pad) == Digits(fmt, i + 1, (pad * 10 + d) % 256) && i < Digits(fmt, i, pad).0
  {
  }

  lemma NoDigits(fmt: string, i: nat, pad: nat)
    requires i <= |fmt| && (i < |fmt| ==> !('0' <= fmt[i] <= '9'))
    ensures Digits(fmt, i, pad) == (i, pad) && Value(fmt[i..i], 10) == 0 && Power(10, 0) == 1
  {
  }

  lemma PowerStep(base: nat, n: nat)
    ensures Power(base, n + 1) == base * Power(base, n)
  {
  }

  lemma Accumulates(pad: nat, d: nat, p: nat, v: int)
    ensures ((pad * 10 + d) % 256 * p + v) % 256 == (pad * (10 * p) + (d * p + v)) % 256
  {
    var x := pad * 10 + d;
    var q := x / 256;
    assert x * p == x % 256 * p + 256 * (q * p) by {
      assert x == x % 256 + 256 * q;
    }
    assert pad * (10 * p) + (d * p + v) == x * p + v;
    WholeBytes(x % 256 * p + v, q * p);
  }

  // A digit in front counts for its place.
  lemma {:induction false} ValueStarts(c: char, t: string)
    ensures Value([c] + t, 10) == DigitValue(c) * Power(10, |t|) + Value(t, 10)
    decreases |t|
  {
    hide Value, Power, DigitValue;
    if t == [] {
      assert Value([c] + t, 10) == Value([], 10) * 10 + DigitValue(c) by {
        ValueEnds([], c, 10);
        assert [] + [c] == [c] + t;
      }
      NoDigits("", 0, 0);
      assert ""[0..0] == "";
    } else {
      var u, e := t[..|t| - 1], t[|t| - 1];
      ValueStarts(c, u);
      assert Value([c] + t, 10) == Value([c] + u, 10) * 10 + DigitValue(e) by {
        ValueEnds([c] + u, e, 10);
        assert [c] + u + [e] == [c] + t;
      }
      assert Value(t, 10) == Value(u, 10) * 10 + DigitValue(e) by {
        ValueEnds(u, e, 10);
        assert u + [e] == t;
      }
      PowerStep(10, |u|);
    }
  }

  // "%0Nd" pads to N, which is what the number written there says up to 255.
  lemma PaddedFormat(n: nat, v: int)
    requires n < 256 && INT64_MIN < v <= INT64_MAX
    ensures var fmt := "%0" + Decimal(n) + "d";
      && WellFormed(fmt, 0, [IntArg(v)], 0)
      && Text(Expand(fmt, 0, [IntArg(v)], 0, 0)) == Zeros(n - |Decimal(v)|) + Decimal(v)
  {
    hide Decimal, Value, Digits, Zeros;
    var d, args := Decimal(n), [IntArg(v)];
    var fmt := "%0" + d + "d";
    DecimalDigits(n);
    DecimalRoundTrip(n);
    WidthIsNumber(fmt, 2, 0);
    DigitsEnd(fmt, d);
    var j := |d| + 2;
    assert fmt[2..j] == d && fmt[j] == 'd' && Width(fmt, 1, 0) == (j, n);
    AtEnd(fmt, args, 1, 0);
    assert WellFormed(fmt, j + 1, args, 1);
    var s := Converted('d', args, 0, n);
    assert Expand(fmt, 0, args, 0, 0) == Mark(s, false) + [];
    assert Text(Mark(s, false) + []) == s;
  }

  // The width is the one written exactly when what was left over, moved up by as
  // many decimal places, is a multiple of 256: after eight digits always, after
  // none only when nothing was left.
  lemma WidthIsWrittenIff(fmt: string, i: nat, pad: nat)
    requires i <= |fmt| && pad < 256
    ensures var (j, w) := Digits(fmt, i, pad);
      w == Value(fmt[i..j], 10) % 256 <==> pad * Power(10, j - i) % 256 == 0
  {
    hide Digits, Value, Power;
    WidthIsNumber(fmt, i, pad);
    var j := Digits(fmt, i, pad).0;
    SumRest(pad * Power(10, j - i), Value(fmt[i..j], 10));
  }

  lemma SumRest(x: int, v: int)
    ensures (x + v) % 256 == v % 256 <==> x % 256 == 0
  {
  }

  // "%05d" uses its width up; one given to any other conversion, or to a character
  // that is none, is left over for the next %d. c takes the first argument or none.
  lemma LeftoverWidth(c: char, args: seq<Arg>, v: int)
    requires !('0' <= c <= '9') && c != '\0' && INT64_MIN < v <= INT64_MAX
    requires if TakesArg(c) then |args| == 2 && Suits(c, args[0]) && args[1] == IntArg(v) else args == [IntArg(v)]
    ensures var fmt := "%05" + [c] + "%d"; var width := if c == 'd' then 0 else 5;
      && WellFormed(fmt, 0, args, 0)
      && Text(Expand(fmt, 0, args, 0, 0))
      == Converted(c, args, 0, 5) + (Zeros(width - |Decimal(v)|) + Decimal(v))
  {
    hide Decimal, Zeros, Suits, Expand, WellFormed, Converted, Text;
    LeftoverIn("%05" + [c] + "%d", c, args, v);
  }

  // The same of a format known by its characters.
  ghost predicate TwoDirectives(fmt: string, c: char) {
    && !('0' <= c <= '9') && c != '\0' && |fmt| == 6
    && fmt[0] == '%' && fmt[1] == '0' && fmt[2] == '5' && fmt[3] == c && fmt[4] == '%' && fmt[5] == 'd'
  }

  lemma TwoWidths(fmt: string, c: char, pad: nat)
    requires TwoDirectives(fmt, c)
    ensures Width(fmt, 1, 0) == (3, 5) && Width(fmt, 5, pad) == (5, pad)
  {
    assert Digits(fmt, 2, 0) == Digits(fmt, 3, 5) == (3, 5);
  }

  lemma TwoWellFormed(fmt: string, c: char, args: seq<Arg>, v: int)
    requires TwoDirectives(fmt, c) && INT64_MIN < v <= INT64_MAX
    requires if TakesArg(c) then |args| == 2 && Suits(c, args[0]) && args[1] == IntArg(v) else args == [IntArg(v)]
    ensures WellFormed(fmt, 0, args, 0) && WellFormed(fmt, 4, args, if TakesArg(c) then 1 else 0)
  {
    var a := if TakesArg(c) then 1 else 0;
    TwoWidths(fmt, c, 0);
    SuitsInt(v);
    AtEnd(fmt, args, a + 1, 0);
    hide Width, Suits;
    assert WellFormed(fmt, 4, args, a);
  }

  lemma LeftoverIn(fmt: string, c: char, args: seq<Arg>, v: int)
    requires TwoDirectives(fmt, c) && INT64_MIN < v <= INT64_MAX
    requires if TakesArg(c) then |args| == 2 && Suits(c, args[0]) && args[1] == IntArg(v) else args == [IntArg(v)]
    ensures var width := if c == 'd' then 0 else 5;
      && WellFormed(fmt, 0, args, 0)
      && Text(Expand(fmt, 0, args, 0, 0))
      == Converted(c, args, 0, 5) + (Zeros(width - |Decimal(v)|) + Decimal(v))
  {
    hide Decimal, Zeros, Suits, Text, Mark, WellFormed, Expand, Width, Converted;
    var a, width := if TakesArg(c) then 1 else 0, if c == 'd' then 0 else 5;
    TwoWellFormed(fmt, c, args, v);
    TwoWidths(fmt, c, width);
    SuitsInt(v);
    ConversionNext(fmt, 0, args, 0, 0);
    ConversionNext(fmt, 4, args, a, width);
    AtEnd(fmt, args, a + 1, 0);
    var s, d := Converted(c, args, 0, 5), Zeros(width - |Decimal(v)|) + Decimal(v);
    ConvertedInt(args, a, width, v);
    MarkedTwice(s, d);
  }

  lemma ConvertedInt(args: seq<Arg>, a: nat, pad: nat, v: int)
    requires a < |args| && args[a] == IntArg(v) && INT64_MIN < v <= INT64_MAX
    ensures Suits('d', args[a]) && Converted('d', args, a, pad) == Zeros(pad - |Decimal(v)|) + Decimal(v)
  {
    hide Decimal, Zeros;
  }

  lemma SuitsInt(v: int)
    requires INT64_MIN < v <= INT64_MAX
    ensures Suits('d', IntArg(v))
  {
  }

  // Digits without a 0 before them are no width: %5 is an unknown conversion.
  lemma WidthNeedsZero(args: seq<Arg>)
    ensures WellFormed("%5d", 0, args, 0) && Text(Expand("%5d", 0, args, 0, 0)) == "d"
  {
    var fmt := "%5d";
    assert Width(fmt, 1, 0) == (1, 0);
    hide Digits, Width;
    AtEnd(fmt, args, 0, 0);
    assert WellFormed(fmt, 2, args, 0);
    assert Expand(fmt, 2, args, 0, 0) == [Out('d', true)] + [];
    assert Expand(fmt, 0, args, 0, 0) == Mark("", false) + Expand(fmt, 2, args, 0, 0);
    assert Text([] + ([Out('d', true)] + [])) == "d";
  }

  lemma MarkedTwice(t: string, d: string)
    ensures Text(Mark(t, false) + (Mark(d, false) + [])) == t + d
  {
  }

  lemma DigitsEnd(fmt: string, d: string)
    requires fmt == "%0" + d + "d" && AllDigits(d)
    ensures Digits(fmt, 2, 0).0 == |d| + 2
  {
    hide Digits;
    DigitsAre(fmt, 2, 0);
    var j := Digits(fmt, 2, 0).0;
    assert fmt[|d| + 2] == 'd' && forall k :: 2 <= k < |d| + 2 ==> fmt[k] == d[k - 2];
    assert forall k :: 2 <= k < j ==> fmt[k] == fmt[2..j][k - 2];
  }

  // ---- Output through a buffer ----

  function Clip(s: string, n: nat): (r: string)
    ensures |r| <= n && |r| <= |s|
  {
    if |s| <= n then s else s[..n]
  }

  // The buffer holds as much of s as fits in n characters, with a NUL behind
  // it once there is something.
  ghost predicate Printed(buf: array<char>, n: nat, off: nat, s: string)
    reads buf
  {
    n < buf.Length && off == |Clip(s, n)| && buf[..off] == Clip(s, n) && (s != "" ==> buf[off] == '\0')
  }

  lemma ClipTwice(s: string, t: string, n: nat)
    ensures Clip(Clip(s, n) + t, n) == Clip(s + t, n)
  {
    if |s| > n {
      assert (s[..n] + t)[..n] == (s + t)[..n];
    }
  }

  // printc.
  method PrintC(buf: array<char>, size: nat, off0: nat, c: char, ghost s: string) returns (off: nat)
    requires 1 <= size <= buf.Length && Printed(buf, size - 1, off0, s)
    modifies buf
    ensures Printed(buf, size - 1, off, s + [c])
    ensures buf[size..] == old(buf[size..])
  {
    ghost var before := buf[..off0];
    off := off0;
    if off < size - 1 {
      buf[off] := c;
      off := off + 1;
    }
    buf[off] := '\0';
    ClipTwice(s, [c], size - 1);
    assert buf[..off] == Clip(before + [c], size - 1);
  }

  // printstr.
  method PrintStr(buf: array<char>, size: nat, off0: nat, t: string, ghost s: string) returns (off: nat)
    requires 1 <= size <= buf.Length && Printed(buf, size - 1, off0, s)
    modifies buf
    ensures Printed(buf, size - 1, off, s + t)
    ensures buf[size..] == old(buf[size..])
  {
    hide Clip;
    ghost var before := buf[..off0];
    off := off0;
    var k := 0;
    while off < size - 1 && k < |t|
      invariant off0 <= off <= size - 1 && k == off - off0 && k <= |t|
      invariant buf[..off] == before + t[..k]
      invariant buf[size..] == old(buf[size..])
    {
      buf[off] := t[k];
      assert t[..k + 1] == t[..k] + [t[k]];
      off := off + 1;
      k := k + 1;
    }
    buf[off] := '\0';
    ClipTwice(s, t, size - 1);
    ClipAt(before, t, size - 1, k);
  }

  lemma ClipAt(before: string, t: string, n: nat, k: nat)
    requires |before| <= n && k <= |t| && |before| + k <= n && (|before| + k == n || k == |t|)
    ensures Clip(before + t, n) == before + t[..k]
  {
    assert (before + t)[..|before| + k] == before + t[..k];
  }

  // n zeros, by single characters.
  method PrintZeros(buf: array<char>, size: nat, off0: nat, n: int, ghost s: string) returns (off: nat)
    requires 1 <= size <= buf.Length && Printed(buf, size - 1, off0, s)
    modifies buf
    ensures Printed(buf, size - 1, off, s + Zeros(n))
    ensures buf[size..] == old(buf[size..])
  {
    hide Printed;
    off := off0;
    var i := 0;
    assert s + Zeros(0) == s;
    while i < n
      invariant 0 <= i && (i <= n || i == 0) && Printed(buf, size - 1, off, s + Zeros(i))
      invariant buf[size..] == old(buf[size..])
    {
      off := PrintC(buf, size, off, '0', s + Zeros(i));
      ZerosEnd(i);
      assert s + Zeros(i) + ['0'] == s + (Zeros(i) + ['0']);
      i := i + 1;
    }
    assert i == n || (n < 0 && Zeros(n) == Zeros(0));
  }

  lemma {:induction false} ZerosEnd(n: nat)
    ensures Zeros(n + 1) == Zeros(n) + ['0']
  {
    if n > 0 { ZerosEnd(n - 1); }
  }

  // strlen of a converted number.
  method NumLen(numBuf: array<char>, ghost s: string) returns (n: nat)
    requires Holds(numBuf, s) && NulFree(s)
    ensures n == |s|
  {
    assert forall k :: 0 <= k < |s| ==> numBuf[k] == numBuf[..|s|][k] == s[k];
    n := 0;
    while numBuf[n] != '\0'
      invariant n <= |s|
      decreases |s| - n
    {
      n := n + 1;
    }
  }

  // The body of the switch: one conversion.
  method PrintConversion(buf: array<char>, size: nat, off0: nat, c: char, args: seq<Arg>, a: nat, pad0: nat,
                         numBuf: array<char>, ghost s: string) returns (off: nat, pad: nat)
    requires TakesArg(c) ==> a < |args| && Suits(c, args[a])
    requires 1 <= size <= buf.Length && Printed(buf, size - 1, off0, s) && numBuf.Length >= 21 && buf != numBuf
    modifies buf, numBuf
    ensures Printed(buf, size - 1, off, s + Converted(c, args, a, pad0)) && pad == PadAfter(c, pad0)
    ensures buf[size..] == old(buf[size..])
  {
    hide Printed, Decimal, Hex, NulFree, Zeros;
    off, pad := off0, pad0;
    if c == 'c' {
      off := PrintC(buf, size, off, args[a].c, s);
    } else if c == '%' {
      off := PrintC(buf, size, off, c, s);
    } else if c == 'd' {
      off, pad := PrintDecimal(buf, size, off, args[a].i, pad, numBuf, s);
    } else if c == 'p' {
      off := PrintPointer(buf, size, off, args[a].w, numBuf, s);
    } else if c == 'x' {
      HexNulFree(args[a].w);
      Lengths(0, args[a].w);
      ConvertBase16(args[a].w, numBuf);
      var tmpLen := NumLen(numBuf, Hex(args[a].w));
      off := PrintStr(buf, size, off, numBuf[..tmpLen][2..], s);
    } else if c == 's' {
      off := PrintStr(buf, size, off, args[a].s, s);
    } else {
      assert s + "" == s;
    }
  }

  // %d: zeros up to the width, then the numeral, sign included.
  method PrintDecimal(buf: array<char>, size: nat, off0: nat, value: int, pad0: nat,
                      numBuf: array<char>, ghost s: string)
    returns (off: nat, pad: nat)
    requires INT64_MIN < value <= INT64_MAX
    requires 1 <= size <= buf.Length && Printed(buf, size - 1, off0, s) && numBuf.Length >= 21 && buf != numBuf
    modifies buf, numBuf
    ensures Printed(buf, size - 1, off, s + (Zeros(pad0 - |Decimal(value)|) + Decimal(value))) && pad == 0
    ensures buf[size..] == old(buf[size..])
  {
    hide Printed, Decimal, NulFree, Zeros;
    off, pad := off0, pad0;
    DecimalNulFree(value);
    ConvertBase10(value, numBuf);
    var numLen := NumLen(numBuf, Decimal(value));
    ghost var zeros := Zeros(pad0 - numLen);
    if pad > 0 {
      off := PrintZeros(buf, size, off, pad - numLen, s);
      pad := 0;
    } else {
      NoZeros(pad0 - numLen);
      assert s + "" == s;
    }
    off := PrintStr(buf, size, off, numBuf[..numLen], s + zeros);
    assert s + zeros + Decimal(value) == s + (zeros + Decimal(value));
  }

  // %p: 0x and sixteen digits.
  method PrintPointer(buf: array<char>, size: nat, off0: nat, value: nat, numBuf: array<char>, ghost s: string)
    returns (off: nat)
    requires value <= UINT64_MAX
    requires 1 <= size <= buf.Length && Printed(buf, size - 1, off0, s) && numBuf.Length >= 21 && buf != numBuf
    modifies buf, numBuf
    ensures Printed(buf, size - 1, off, s + ("0x" + Zeros(18 - |Hex(value)|) + AfterPrefix(Hex(value))))
    ensures buf[size..] == old(buf[size..])
  {
    hide Printed, Hex, NulFree, Zeros;
    HexNulFree(value);
    Lengths(0, value);
    ConvertBase16(value, numBuf);
    var tmpLen := NumLen(numBuf, Hex(value));
    off := PrintC(buf, size, off0, '0', s);
    off := PrintC(buf, size, off, 'x', s + ['0']);
    off := PrintZeros(buf, size, off, 18 - tmpLen, s + ['0'] + ['x']);
    ghost var zeros, digits := Zeros(18 - tmpLen), AfterPrefix(Hex(value));
    off := PrintStr(buf, size, off, numBuf[..tmpLen][2..], s + ['0'] + ['x'] + zeros);
    assert s + ['0'] + ['x'] + zeros + digits == s + ("0x" + zeros + digits);
  }

  lemma NoZeros(n: int)
    requires n <= 0
    ensures Zeros(n) == ""
  {
  }

  // An optional sign, then digits.
  predicate IsNumeral(s: string) {
    s != "" && if s[0] == '-' then |s| > 1 && AllDigits(s[1..]) else AllDigits(s)
  }

  predicate AllDigits(s: string) {
    forall k :: 0 <= k < |s| ==> '0' <= s[k] <= '9'
  }

  // %d prints at least the width. What it prints is a numeral, and the value's,
  // exactly unless zeros come before a sign.
  lemma PaddedDecimal(args: seq<Arg>, a: nat, pad: nat)
    requires a < |args| && Suits('d', args[a])
    ensures var v := args[a].i; var s := Converted('d', args, a, pad);
      && |s| == (if pad > |Decimal(v)| then pad else |Decimal(v)|)
      && (IsNumeral(s) <==> v >= 0 || pad <= |Decimal(v)|)
      && (IsNumeral(s) ==> ParseDecimal(s) == v)
  {
    var v := args[a].i;
    var d := Decimal(v);
    var n := pad - |d|;
    DecimalDigits(v);
    DecimalRoundTrip(v);
    hide Decimal, Value;
    if n <= 0 {
      NoZeros(n);
      assert Zeros(n) + d == d;
    } else {
      hide IsNumeral, ParseDecimal;
      ZerosBefore(n, d);
    }
  }

  lemma ZerosBefore(n: nat, d: string)
    requires n > 0 && d != "" && IsNumeral(d)
    ensures |Zeros(n) + d| == n + |d|
    ensures IsNumeral(Zeros(n) + d) <==> d[0] != '-'
    ensures d[0] != '-' ==> ParseDecimal(Zeros(n) + d) == ParseDecimal(d)
  {
    hide Value;
    AllZeros(n);
    var s := Zeros(n) + d;
    assert s[0] == '0' && s[n] == d[0];
    if d[0] == '-' {
      assert s[n] < '0';
    } else {
      LeadingZeros(n, d, 10);
      forall k | 0 <= k < |s| ensures '0' <= s[k] <= '9' {
        if k < n {
          assert s[k] == Zeros(n)[k];
        } else {
          assert s[k] == d[k - n];
        }
      }
    }
  }

  lemma DecimalDigits(v: int)
    ensures Decimal(v) != "" && IsNumeral(Decimal(v)) && (Decimal(v)[0] == '-' <==> v < 0)
  {
    hide LowFirst, Reverse;
    var n := if v < 0 then -v else v;
    LowFirstDigits(n);
    if v < 0 { assert Decimal(v)[1..] == Reverse(LowFirst(n, 10)); }
  }

  lemma {:induction false} LowFirstDigits(n: nat)
    ensures AllDigits(LowFirst(n, 10))
    decreases n
  {
    if n > 0 {
      LowFirstDigits(n / 10);
      LowFirstStep(n, 10);
      hide LowFirst;
      DigitIs(n % 10);
    }
  }

  lemma DigitIs(d: nat)
    requires d < 10
    ensures '0' <= DIGITS[d] <= '9'
  {
    DigitsRead(d);
  }

  lemma {:induction false} AllZeros(n: nat)
    ensures |Zeros(n)| == n && forall k :: 0 <= k < n ==> Zeros(n)[k] == '0'
  {
    if n > 0 { AllZeros(n - 1); }
  }

  // A format without directives prints itself.
  lemma {:induction false} PlainFormat(fmt: string, i: nat, args: seq<Arg>, a: nat, pad: nat)
    requires i <= |fmt| && WellFormed(fmt, i, args, a) && forall k :: i <= k < |fmt| ==> fmt[k] != '%'
    ensures Text(Expand(fmt, i, args, a, pad)) == fmt[i..]
    decreases |fmt| - i
  {
    if i < |fmt| {
      PlainFormat(fmt, i + 1, args, a, pad);
      var rest := Expand(fmt, i + 1, args, a, pad);
      assert fmt[i..] == [fmt[i]] + fmt[i + 1..];
      assert Text([Out(fmt[i], true)] + rest) == [fmt[i]] + Text(rest);
    }
  }

  // %p always prints 0x and sixteen hexadecimal digits of the value.
  lemma PointerDigits(args: seq<Arg>, a: nat, pad: nat)
    requires a < |args| && Suits('p', args[a])
    ensures |Converted('p', args, a, pad)| == 18 && ParseHex(Converted('p', args, a, pad)) == args[a].w
  {
    hide Hex, Zeros, Value;
    var h := Hex(args[a].w);
    var z := Zeros(18 - |h|);
    Lengths(0, args[a].w);
    HexStarts(args[a].w);
    AllZeros(18 - |h|);
    HexRoundTrip(args[a].w);
    LeadingZeros(18 - |h|, h[2..], 16);
    assert Converted('p', args, a, pad) == "0x" + z + h[2..] && ("0x" + z + h[2..])[2..] == z + h[2..];
  }

  // %x prints the digits alone, two at least, which read back as the value.
  lemma HexDigits(args: seq<Arg>, a: nat, pad: nat)
    requires a < |args| && Suits('x', args[a])
    ensures var s := Converted('x', args, a, pad);
      && ParseHex("0x" + s) == args[a].w
      && if args[a].w < 16 then |s| == 2 else |s| >= 2 && s[0] != '0'
  {
    hide Hex, Value;
    var h := Hex(args[a].w);
    HexStarts(args[a].w);
    HexRoundTrip(args[a].w);
    NoZerosInFront(0, args[a].w);
    assert "0x" + h[2..] == h;
  }

  // %c prints the character, %s the string, %% a percent sign, and any other
  // character nothing.
  lemma PlainConversions(c: char, args: seq<Arg>)
    requires c != '0' && c != '\0' && (TakesArg(c) ==> args != [] && Suits(c, args[0]))
    ensures WellFormed("%" + [c], 0, args, 0)
    ensures var s := Text(Expand("%" + [c], 0, args, 0, 0));
      match c
      case 'c' => s == [args[0].c]
      case 's' => s == args[0].s
      case '%' => s == "%"
      case 'd' => ParseDecimal(s) == args[0].i
      case 'x' => ParseHex("0x" + s) == args[0].w
      case 'p' => ParseHex(s) == args[0].w
      case _ => s == ""
  {
    hide Decimal, Hex, Zeros, ParseDecimal, ParseHex, AfterPrefix;
    var fmt, a := "%" + [c], if TakesArg(c) then 1 else 0;
    assert Width(fmt, 1, 0) == (1, 0);
    hide Width, Digits;
    AtEnd(fmt, args, a, 0);
    var s := Converted(c, args, 0, 0);
    assert Expand(fmt, 0, args, 0, 0) == Mark(s, false) + Expand(fmt, 2, args, a, PadAfter(c, 0));
    assert Text(Mark(s, false) + []) == s;
    hide Expand, WellFormed, Text, Mark;
    match c
    case 'd' =>
      NoZeros(0 - |Decimal(args[0].i)|);
      DecimalRoundTrip(args[0].i);
      assert "" + Decimal(args[0].i) == Decimal(args[0].i);
    case 'x' => HexDigits(args, 0, 0);
    case 'p' => PointerDigits(args, 0, 0);
    case _ =>
  }

  lemma HexStarts(n: nat)
    ensures |Hex(n)| >= 2 && Hex(n)[0] == '0' && Hex(n)[1] == 'x'
  {
    hide LowFirst, Reverse;
  }

  // Zeros in front do not change what a numeral is worth.
  lemma {:induction false} LeadingZeros(n: nat, s: string, base: nat)
    ensures Value(Zeros(n) + s, base) == Value(s, base)
    decreases |s|, n
  {
    if s != [] {
      var t := s[..|s| - 1];
      LeadingZeros(n, t, base);
      assert (Zeros(n) + s)[..|Zeros(n) + s| - 1] == Zeros(n) + t;
    } else if n > 0 {
      ZerosEnd(n - 1);
      assert Zeros(n) + s == Zeros(n - 1) + ['0'];
      ValueEnds(Zeros(n - 1), '0', base);
      assert Zeros(n - 1) + s == Zeros(n - 1);
      LeadingZeros(n - 1, s, base);
    } else {
      assert Zeros(0) + s == s;
    }
  }

  // ---- vsnprintf ----

  // The answer: the number of characters written, except that a buffer filled
  // by a conversion answers 0.
  function Answer(e: seq<Out>, size: nat): int
  {
    if size <= 1 then 0
    else if |e| < size - 1 then |e|
    else if e[size - 2].literal then size - 1
    else 0
  }

  lemma AnswerIff(e: seq<Out>, size: nat)
    requires size >= 1
    ensures Answer(e, size) == 0 || Answer(e, size) == |Clip(Text(e), size - 1)|
    ensures Answer(e, size) == |Clip(Text(e), size - 1)| <==> !(1 < size <= |e| + 1 && !e[size - 2].literal)
  {
  }

  lemma LiteralNext(fmt: string, i: nat, args: seq<Arg>, a: nat, pad: nat)
    requires i < |fmt| && WellFormed(fmt, i, args, a) && fmt[i] != '%'
    ensures WellFormed(fmt, i + 1, args, a)
    ensures Expand(fmt, i, args, a, pad) == [Out(fmt[i], true)] + Expand(fmt, i + 1, args, a, pad)
  {
  }

  lemma AtEnd(fmt: string, args: seq<Arg>, a: nat, pad: nat)
    ensures WellFormed(fmt, |fmt|, args, a) && Expand(fmt, |fmt|, args, a, pad) == []
  {
  }

  lemma ConversionNext(fmt: string, i: nat, args: seq<Arg>, a: nat, pad: nat)
    requires i < |fmt| && WellFormed(fmt, i, args, a) && fmt[i] == '%'
    ensures var (j, pad') := Width(fmt, i + 1, pad);
      && j < |fmt| && (TakesArg(fmt[j]) ==> a < |args| && Suits(fmt[j], args[a]))
      && var a' := if TakesArg(fmt[j]) then a + 1 else a;
         WellFormed(fmt, j + 1, args, a')
         && Expand(fmt, i, args, a, pad)
         == Mark(Converted(fmt[j], args, a, pad'), false) + Expand(fmt, j + 1, args, a', PadAfter(fmt[j], pad'))
  {
    WidthPlace(fmt, i + 1, 0, pad);
  }

  lemma PrefixClips(done: seq<Out>, e: seq<Out>, n: nat)
    requires done <= e && (|done| >= n || done == e)
    ensures Clip(Text(e), n) == Clip(Text(done), n)
  {
    if |done| >= n { assert Text(e)[..n] == Text(done)[..n]; }
  }

  lemma NothingPrinted(buf: array<char>, size: nat)
    requires 1 <= size <= buf.Length
    ensures Printed(buf, size - 1, 0, Text([]))
  {
  }

  lemma TextAppend(done: seq<Out>, s: string, literal: bool)
    ensures Text(done + Mark(s, literal)) == Text(done) + s
    ensures |s| == 1 ==> Mark(s, literal) == [Out(s[0], literal)]
    ensures forall k :: 0 <= k < |s| ==> Mark(s, literal)[k].literal == literal
  {
  }

  lemma WhatIsPrinted(buf: array<char>, n: nat, off: nat, done: seq<Out>)
    requires Printed(buf, n, off, Text(done))
    ensures n < buf.Length && off == |Clip(Text(done), n)| && off == (if |done| <= n then |done| else n)
    ensures buf[..off] == Clip(Text(done), n) && (done != [] ==> buf[off] == '\0')
  {
  }

  // "%0N": skip the digits, adding them up in a uint8_t.
  method SkipWidth(fmt: string, i0: nat, pad0: nat) returns (i: nat, pad: nat)
    requires i0 <= |fmt|
    ensures (i, pad) == Width(fmt, i0, pad0)
  {
    i, pad := i0, pad0;
    if i < |fmt| && fmt[i] == '0' {
      i := i + 1;
      while i < |fmt| && '0' <= fmt[i] <= '9'
        invariant i0 < i <= |fmt| && Digits(fmt, i, pad) == Digits(fmt, i0 + 1, pad0)
      {
        pad := (pad * 10 + (fmt[i] as int - '0' as int)) % 256;
        i := i + 1;
      }
    }
  }

  // Copy the format up to the next '%'.
  method PrintLiterals(buf: array<char>, size: nat, off0: nat, fmt: string, i0: nat, ghost args: seq<Arg>,
                       ghost a: nat, ghost pad: nat, ghost before: seq<Out>)
    returns (off: nat, i: nat, ghost done: seq<Out>)
    requires i0 <= |fmt| && WellFormed(fmt, i0, args, a)
    requires 1 <= size <= buf.Length && Printed(buf, size - 1, off0, Text(before))
    modifies buf
    ensures i0 <= i <= |fmt| && WellFormed(fmt, i, args, a) && (i < |fmt| ==> fmt[i] == '%')
    ensures before + Expand(fmt, i0, args, a, pad) == done + Expand(fmt, i, args, a, pad)
    ensures before <= done && forall k :: |before| <= k < |done| ==> done[k].literal
    ensures Printed(buf, size - 1, off, Text(done)) && buf[size..] == old(buf[size..])
  {
    hide Expand, WellFormed, Printed, Text, Mark;
    off, i, done := off0, i0, before;
    while i < |fmt| && fmt[i] != '%'
      invariant i0 <= i <= |fmt| && WellFormed(fmt, i, args, a)
      invariant before + Expand(fmt, i0, args, a, pad) == done + Expand(fmt, i, args, a, pad)
      invariant before <= done && forall k :: |before| <= k < |done| ==> done[k].literal
      invariant Printed(buf, size - 1, off, Text(done)) && buf[size..] == old(buf[size..])
    {
      LiteralNext(fmt, i, args, a, pad);
      off := PrintC(buf, size, off, fmt[i], Text(done));
      TextAppend(done, [fmt[i]], true);
      done := done + [Out(fmt[i], true)];
      i := i + 1;
    }
  }

  // What one '%' directive leaves.
  ghost predicate Directed(fmt: string, i: nat, args: seq<Arg>, a: nat, pad: nat, before: seq<Out>,
                           i': nat, a': nat, pad': nat, done: seq<Out>)
    requires i <= |fmt| && WellFormed(fmt, i, args, a)
  {
    && i < i' <= |fmt| && WellFormed(fmt, i', args, a')
    && before + Expand(fmt, i, args, a, pad) == done + Expand(fmt, i', args, a', pad')
    && before <= done && forall k :: |before| <= k < |done| ==> !done[k].literal
  }

  // One directive: width, conversion character, output.
  method PrintDirective(buf: array<char>, size: nat, off0: nat, fmt: string, i0: nat, args: seq<Arg>, a0: nat,
                        pad0: nat, numBuf: array<char>, ghost before: seq<Out>)
    returns (off: nat, i: nat, a: nat, pad: nat, ghost done: seq<Out>)
    requires i0 < |fmt| && WellFormed(fmt, i0, args, a0) && fmt[i0] == '%'
    requires numBuf.Length >= 21 && buf != numBuf
    requires 1 <= size <= buf.Length && Printed(buf, size - 1, off0, Text(before))
    modifies buf, numBuf
    ensures Directed(fmt, i0, args, a0, pad0, before, i, a, pad, done)
    ensures Printed(buf, size - 1, off, Text(done)) && buf[size..] == old(buf[size..])
  {
    hide Expand, WellFormed, Converted, Width, Printed, Text, Mark, Suits;
    ConversionNext(fmt, i0, args, a0, pad0);
    i, pad := SkipWidth(fmt, i0 + 1, pad0);
    var c := fmt[i];
    ghost var printed := Converted(c, args, a0, pad);
    ghost var rest := Expand(fmt, i + 1, args, if TakesArg(c) then a0 + 1 else a0, PadAfter(c, pad));
    i := i + 1;
    off, pad := PrintConversion(buf, size, off0, c, args, a0, pad, numBuf, Text(before));
    TextAppend(before, printed, false);
    done := before + Mark(printed, false);
    assert before + (Mark(printed, false) + rest) == done + rest;
    a := if TakesArg(c) then a0 + 1 else a0;
  }

  // Whatever the format prints, the buffer receives its first size - 1
  // characters and a NUL behind them (no NUL when nothing is printed).
  method Vsnprintf(buf: array<char>, size: nat, fmt: string, args: seq<Arg>) returns (ret: int)
    requires 1 <= size <= buf.Length && WellFormed(fmt, 0, args, 0)
    modifies buf
    ensures var s := Clip(Text(Expand(fmt, 0, args, 0, 0)), size - 1);
      buf[..|s|] == s && (size > 1 && s != "" ==> buf[|s|] == '\0')
    ensures ret == Answer(Expand(fmt, 0, args, 0, 0), size)
    ensures buf[size..] == old(buf[size..])
  {
    hide Expand, WellFormed, Printed, Text;
    NothingPrinted(buf, size);
    var numBuf := new char[256];
    var off: nat, i: nat, a: nat, padWidth: nat := 0, 0, 0, 0;
    ghost var e := Expand(fmt, 0, args, 0, 0);
    ghost var done: seq<Out> := [];
    assert e == done + Expand(fmt, 0, args, 0, 0);
    while off < size - 1
      invariant i <= |fmt| && WellFormed(fmt, i, args, a) && e == done + Expand(fmt, i, args, a, padWidth)
      invariant Printed(buf, size - 1, off, Text(done)) && buf[size..] == old(buf[size..])
      invariant |done| >= size - 1 && size > 1 ==> !done[size - 2].literal
      decreases |fmt| - i
    {
      ghost var before := done;
      WhatIsPrinted(buf, size - 1, off, done);
      assert |before| < size - 1;
      off, i, done := PrintLiterals(buf, size, off, fmt, i, args, a, padWidth, done);
      if i == |fmt| || off == size - 1 {
        AtEnd(fmt, args, a, padWidth);
        WhatIsPrinted(buf, size - 1, off, done);
        PrefixClips(done, e, size - 1);
        return off;
      }
      WhatIsPrinted(buf, size - 1, off, done);
      assert |done| < size - 1;
      off, i, a, padWidth, done := PrintDirective(buf, size, off, fmt, i, args, a, padWidth, numBuf, done);
      WhatIsPrinted(buf, size - 1, off, done);
    }
    WhatIsPrinted(buf, size - 1, off, done);
    PrefixClips(done, e, size - 1);
    return 0;
  }
}
