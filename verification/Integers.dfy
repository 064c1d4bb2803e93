/** Reading and printing 64-bit integers (ecos/host/libcdl/cdlmisc.cxx, Cdl::string_to_integer
    and Cdl::integer_to_string). */
module Integers {

  import opened Common

  const TWO63 := 0x8000_0000_0000_0000
  const TWO64 := 0x1_0000_0000_0000_0000

  predicate IsCdlInt(v: int) { -TWO63 <= v < TWO63 }

  /** Two's complement arithmetic on cdl_int. */
  function Wrap64(x: int): (r: int)
    ensures IsCdlInt(r) && (IsCdlInt(x) ==> r == x)
  {
    (x + TWO63) % TWO64 - TWO63
  }

  // ---------------------------------------------------------------- characters

  /** Reading a C string, with the terminator at its end. */
  function At(s: string, i: nat): char {
    if i < |s| then s[i] else '\0'
  }

  predicate IsSpace(c: char) {
    c == ' ' || c == '\t' || c == '\n' || c == 11 as char || c == 12 as char || c == '\r'
  }

  /** The value of a character as a digit of the base, or -1. */
  function DigitOf(c: char, base: int): (d: int)
    ensures -1 <= d < base || base <= 0 || d == -1
  {
    var d := if '0' <= c <= '9' then c as int - '0' as int
             else if 'a' <= c <= 'f' then c as int + 10 - 'a' as int
             else if 'A' <= c <= 'F' then c as int + 10 - 'A' as int
             else -1;
    if d < base then d else -1
  }

  function CharOf(d: int): char
    requires 0 <= d < 16
  {
    if d < 10 then '0' + d as char else 'A' + (d - 10) as char
  }

  predicate Digits(ds: seq<int>, base: int) {
    forall i :: 0 <= i < |ds| ==> 0 <= ds[i] < base
  }

  function Chars(ds: seq<int>): (s: string)
    requires Digits(ds, 16)
    ensures |s| == |ds| && forall i :: 0 <= i < |ds| ==> s[i] == CharOf(ds[i])
  {
    seq(|ds|, i requires 0 <= i < |ds| => CharOf(ds[i]))
  }

  // ---------------------------------------------------------------- the grammar

  /** The longest run of digits of the base at position i. */
  function Run(s: string, i: nat, base: int): (ds: seq<int>)
    requires base == 8 || base == 10 || base == 16
    ensures Digits(ds, base) && DigitOf(At(s, i + |ds|), base) == -1
    decreases |s| - i
  {
    var d := DigitOf(At(s, i), base);
    if d == -1 then [] else [d] + Run(s, i + 1, base)
  }

  function SkipSpaces(s: string, i: nat): nat
    decreases |s| - i
  {
    if IsSpace(At(s, i)) then SkipSpaces(s, i + 1) else i
  }

  /** What a text denotes before its size is looked at. */
  datatype Shape = Malformed | Number(negative: bool, base: int, digits: seq<int>)

  function Ended(s: string, negative: bool, base: int, i: nat, ds: seq<int>): Shape {
    if At(s, i + |ds|) == '\0' then Number(negative, base, ds) else Malformed
  }

  /** Space, an optional '+', an optional '-', and "0x" hex digits, "0" octal digits, or
      possibly no decimal digits at all. */
  function ShapeOf(s: string): (r: Shape)
    ensures r.Number? ==> r.base in {8, 10, 16} && Digits(r.digits, r.base)
  {
    var p := SkipSpaces(s, 0);
    var q := if At(s, p) == '+' then p + 1 else p;
    var negative := At(s, q) == '-';
    var b := if negative then q + 1 else q;
    if At(s, b) == '0' && At(s, b + 1) in {'x', 'X'} then
      var ds := Run(s, b + 2, 16);
      if ds == [] then Malformed else Ended(s, negative, 16, b + 2, ds)
    else if At(s, b) == '0' && '0' <= At(s, b + 1) <= '7' then
      Ended(s, negative, 8, b + 1, Run(s, b + 1, 8))
    else
      Ended(s, negative, 10, b, Run(s, b, 10))
  }

  /** The number a digit sequence denotes. */
  function Magnitude(ds: seq<int>, base: int): int {
    if ds == [] then 0 else base * Magnitude(ds[..|ds| - 1], base) + ds[|ds| - 1]
  }

  lemma MagnitudeStep(ds: seq<int>, base: int)
    requires ds != []
    ensures Magnitude(ds, base) == base * Magnitude(ds[..|ds| - 1], base) + ds[|ds| - 1]
  {
  }

  function Scaled(base: int, acc: int): int {
    Wrap64(base * acc)
  }

  /** What the accumulator loop makes of the digits: None when its overflow test strikes. */
  function Fold(ds: seq<int>, base: int): (r: Option<int>)
    ensures r.Some? ==> 0 <= r.value < TWO63
  {
    if ds == [] then Some(0)
    else
      var r := Fold(ds[..|ds| - 1], base);
      if r.None? then None
      else
        var x := Wrap64(Scaled(base, r.value) + ds[|ds| - 1]);
        if x < r.value then None else Some(x)
  }

  function Parse(s: string): Option<int> {
    match ShapeOf(s)
    case Malformed => None
    case Number(negative, base, ds) =>
      match Fold(ds, base)
      case None => None
      case Some(acc) => Some(if negative then -acc else acc)
  }

  // ---------------------------------------------------------------- string_to_integer

  /** One digit loop of string_to_integer, from position i on. */
  method Accumulate(data: string, i: nat, base: int) returns (r: Option<int>, p: nat)
    requires base == 8 || base == 10 || base == 16
    ensures r == Fold(Run(data, i, base), base)
    ensures r.Some? ==> p == i + |Run(data, i, base)|
  {
    hide *;
    p := i;
    var acc := 0;
    ghost var seen: seq<int> := [];
    FoldNothing(base);
    RunStep(data, i, base);
    while DigitOf(At(data, p), base) != -1
      invariant p == i + |seen| && Run(data, i, base) == seen + Run(data, p, base)
      invariant Fold(seen, base) == Some(acc)
      decreases |data| - p
    {
      var newAcc := Scaled(base, acc);
      newAcc := Wrap64(newAcc + DigitOf(At(data, p), base));
      ghost var next := seen + [DigitOf(At(data, p), base)];
      RunOn(data, i, p, base, seen);
      FoldStep(seen, DigitOf(At(data, p), base), base);
      if newAcc < acc {
        FoldStays(next, Run(data, p + 1, base), base);
        return None, p;
      }
      acc := newAcc;
      p := p + 1;
      seen := next;
    }
    RunStep(data, p, base);
    NothingMore(seen);
    return Some(acc), p;
  }

  lemma NothingMore(seen: seq<int>)
    ensures seen + [] == seen
  {
  }

  lemma RunOn(s: string, i: nat, p: nat, base: int, seen: seq<int>)
    requires base == 8 || base == 10 || base == 16
    requires Run(s, i, base) == seen + Run(s, p, base) && DigitOf(At(s, p), base) != -1
    ensures p < |s| && Run(s, i, base) == seen + [DigitOf(At(s, p), base)] + Run(s, p + 1, base)
  {
    RunStep(s, p, base);
    hide Run;
  }

  lemma RunStep(s: string, i: nat, base: int)
    requires base == 8 || base == 10 || base == 16
    ensures Run(s, i, base) ==
      if DigitOf(At(s, i), base) == -1 then [] else [DigitOf(At(s, i), base)] + Run(s, i + 1, base)
  {
  }

  lemma FoldNothing(base: int)
    ensures Fold([], base) == Some(0)
  {
  }

  lemma FoldStep(ds: seq<int>, d: int, base: int)
    ensures Fold(ds + [d], base) ==
      match Fold(ds, base)
      case None => None
      case Some(a) => var x := Wrap64(Scaled(base, a) + d); if x < a then None else Some(x)
  {
    assert (ds + [d])[..|ds + [d]| - 1] == ds;
  }

  lemma {:induction false} FoldStays(a: seq<int>, b: seq<int>, base: int)
    requires Fold(a, base).None?
    ensures Fold(a + b, base).None?
  {
    if b == [] {
      assert a + b == a;
    } else {
      FoldStays(a, b[..|b| - 1], base);
      assert (a + b)[..|a + b| - 1] == a + b[..|b| - 1];
    }
  }

  lemma RunOfZero(s: string, i: nat)
    requires At(s, i) == '0' && At(s, i + 1) == '\0'
    ensures Run(s, i, 10) == [0] && Fold([0], 10) == Some(0)
  {
    RunStep(s, i, 10);
    RunStep(s, i + 1, 10);
    FoldStep([], 0, 10);
    assert [] + [0] == [0];
  }

  method StringToInteger(data: string) returns (r: Option<int>)
    ensures r == Parse(data)
  {
    hide Fold, Wrap64, DigitOf, Run, Parse, ShapeOf;
    var p := 0;
    while IsSpace(At(data, p))
      invariant 0 <= p && SkipSpaces(data, p) == SkipSpaces(data, 0)
      decreases |data| - p
    {
      p := p + 1;
    }
    var negative := false;
    if At(data, p) == '+' {
      p := p + 1;
    }
    if At(data, p) == '-' {
      negative := true;
      p := p + 1;
    }
    var start, base := p, 10;
    ParseCases(data, p, negative);
    hide At, IsSpace, SkipSpaces;
    if At(data, p) == '0' {
      if At(data, p + 1) == '\0' {
        RunOfZero(data, p);
        return Some(0);
      }
      if At(data, p + 1) == 'x' || At(data, p + 1) == 'X' {
        start, base := p + 2, 16;
        RunStep(data, start, 16);
        if DigitOf(At(data, start), 16) == -1 {
          return None;
        }
      } else if '0' <= At(data, p + 1) <= '7' {
        start, base := p + 1, 8;
      }
    }
    var acc, end := Accumulate(data, start, base);
    if acc.None? || At(data, end) != '\0' {
      return None;
    }
    if negative {
      var newAcc := Wrap64(0 - acc.value);
      if newAcc > 0 {
        return None;
      }
      return Some(newAcc);
    }
    return acc;
  }

  /** What is left to be read from place b, behind space and signs. */
  lemma ParseCases(s: string, b: nat, negative: bool)
    requires var p := SkipSpaces(s, 0);
      var q := if At(s, p) == '+' then p + 1 else p;
      negative == (At(s, q) == '-') && b == if negative then q + 1 else q
    ensures var hex, oct := At(s, b) == '0' && At(s, b + 1) in {'x', 'X'}, At(s, b) == '0' && '0' <= At(s, b + 1) <= '7';
      var base, start := if hex then 16 else if oct then 8 else 10, if hex then b + 2 else if oct then b + 1 else b;
      var ds := Run(s, start, base);
      Parse(s) == if (hex && ds == []) || At(s, start + |ds|) != '\0' then None
                  else match Fold(ds, base) case None => None case Some(acc) => Some(if negative then -acc else acc)
  {
    hide Fold, DigitOf, Run, At, SkipSpaces;
  }

  // ---------------------------------------------------------------- how exact the reader is

  lemma {:induction false} MagnitudeNonNegative(ds: seq<int>, base: int)
    requires Digits(ds, base) && base > 0
    ensures Magnitude(ds, base) >= 0
  {
    if ds != [] {
      MagnitudeNonNegative(ds[..|ds| - 1], base);
    }
  }

  /** Multiplying by a base does not lower a non-negative number. */
  lemma Times(base: int, a: int, d: int)
    requires base >= 1 && a >= 0 && d >= 0
    ensures 0 <= a <= base * a <= base * a + d
  {
  }

  lemma ScaledExact(base: int, a: int)
    requires IsCdlInt(base * a)
    ensures Scaled(base, a) == base * a
  {
  }

  /** Below 2^63 the loop computes the number itself. */
  lemma {:induction false} FoldExact(ds: seq<int>, base: int)
    requires base in {8, 10, 16} && Digits(ds, base) && Magnitude(ds, base) < TWO63
    ensures Fold(ds, base) == Some(Magnitude(ds, base))
  {
    if ds != [] {
      hide Wrap64, Scaled, Fold, Magnitude;
      var p, d := ds[..|ds| - 1], ds[|ds| - 1];
      MagnitudeStep(ds, base);
      MagnitudeNonNegative(p, base);
      Times(base, Magnitude(p, base), d);
      ScaledExact(base, Magnitude(p, base));
      FoldExact(p, base);
      FoldStep(p, d, base);
      assert ds == p + [d];
    }
  }

  /** Whatever the loop lets pass is right modulo 2^64. */
  lemma {:induction false} FoldCongruent(ds: seq<int>, base: int) returns (k: int)
    requires base in {8, 10, 16} && Digits(ds, base) && Fold(ds, base).Some?
    ensures Magnitude(ds, base) == Fold(ds, base).value + k * TWO64
  {
    if ds == [] {
      k := 0;
    } else {
      hide Wrap64, Fold, Magnitude;
      var p, d := ds[..|ds| - 1], ds[|ds| - 1];
      assert ds == p + [d];
      MagnitudeStep(ds, base);
      FoldStep(p, d, base);
      var k' := FoldCongruent(p, base);
      var a := Fold(p, base).value;
      var w1 := Wraps(base * a);
      var w2 := Wraps(Scaled(base, a) + d);
      k := base * k' + w1 + w2;
      CongruentStep(base, Magnitude(p, base), d, a, k', Wrap64(base * a), w1, Fold(ds, base).value, w2);
    }
  }

  lemma CongruentStep(base: int, m: int, d: int, a: int, k: int, y: int, w1: int, x: int, w2: int)
    requires m == a + k * TWO64 && base * a == y + w1 * TWO64 && y + d == x + w2 * TWO64
    ensures base * m + d == x + (base * k + w1 + w2) * TWO64
  {
    assert base * m == base * a + base * (k * TWO64);
    assert base * (k * TWO64) == (base * k) * TWO64;
  }

  lemma Wraps(x: int) returns (k: int)
    ensures x == Wrap64(x) + k * TWO64
  {
    k := (x + TWO63) / TWO64;
  }

  lemma ZeroModulo(x: int, k: int)
    requires x == k * TWO64
    ensures x % TWO64 == 0
  {
  }

  /** As many digits as can be told apart in 64 bits. */
  function SafeLength(base: int): nat {
    if base == 16 then 16 else if base == 10 then 19 else 21
  }

  function Pow(base: int, n: nat): int {
    if n == 0 then 1 else base * Pow(base, n - 1)
  }

  lemma {:induction false} MagnitudeBound(ds: seq<int>, base: int)
    requires Digits(ds, base) && base > 0
    ensures Magnitude(ds, base) < Pow(base, |ds|)
  {
    if ds != [] {
      MagnitudeBound(ds[..|ds| - 1], base);
      TimesMonotone(base, Magnitude(ds[..|ds| - 1], base) + 1, Pow(base, |ds| - 1));
    }
  }

  lemma TimesMonotone(base: int, a: int, b: int)
    requires base > 0 && a <= b
    ensures base * a <= base * b && base * a == base * (a - 1) + base
  {
  }

  lemma {:induction false} PowMonotone(base: int, m: nat, n: nat)
    requires base >= 1 && m <= n
    ensures 1 <= Pow(base, m) <= Pow(base, n)
    decreases n
  {
    if m < n {
      PowMonotone(base, m, n - 1);
      assert base * Pow(base, n - 1) >= Pow(base, n - 1);
    } else if m > 0 {
      PowMonotone(base, m - 1, m - 1);
    }
  }

  lemma SafePowers()
    ensures Pow(16, 16) == TWO64 && Pow(10, 19) < TWO64 && Pow(8, 21) == TWO63
    ensures Pow(10, 19) > TWO63
  {
    assert Pow(16, 4) == 0x1_0000 && Pow(16, 8) == 0x1_0000_0000 && Pow(16, 12) == 0x1_0000_0000_0000;
    assert Pow(10, 5) == 100000 && Pow(10, 10) == 100000_00000 && Pow(10, 15) == 100000_00000_00000;
    assert Pow(8, 4) == 0x1000 && Pow(8, 8) == 0x100_0000 && Pow(8, 12) == 0x10_0000_0000 && Pow(8, 16) == 0x1_0000_0000_0000
      && Pow(8, 20) == 0x1000_0000_0000_0000;
  }

  /** On at most SafeLength digits the overflow test misses nothing. */
  lemma {:induction false} FoldRejects(ds: seq<int>, base: int)
    requires base in {8, 10, 16} && Digits(ds, base) && |ds| <= SafeLength(base)
    requires Magnitude(ds, base) >= TWO63
    ensures Fold(ds, base).None?
  {
    if ds != [] {
      hide Fold, Magnitude, Pow;
      var p, d := ds[..|ds| - 1], ds[|ds| - 1];
      assert ds == p + [d];
      FoldStep(p, d, base);
      MagnitudeStep(ds, base);
      if Magnitude(p, base) >= TWO63 {
        FoldRejects(p, base);
      } else {
        FoldExact(p, base);
        MagnitudeNonNegative(p, base);
        MagnitudeBound(ds, base);
        PowMonotone(base, |ds|, SafeLength(base));
        SafePowers();
        WrapOver(base * Magnitude(p, base), d);
      }
    }
  }

  lemma WrapOver(x: int, d: int)
    requires 0 <= d && TWO63 <= x + d < TWO64
    ensures Wrap64(Wrap64(x) + d) < 0
  {
  }

  /** The reader returns the number the text denotes exactly when that is below 2^63 in
      magnitude; what it accepts beyond that is wrong, though right modulo 2^64, and with at
      most SafeLength digits it accepts nothing beyond that. */
  lemma ParseExact(s: string)
    requires ShapeOf(s).Number?
    ensures var Number(negative, base, ds) := ShapeOf(s);
      var v := if negative then -Magnitude(ds, base) else Magnitude(ds, base);
      && (Parse(s) == Some(v) <==> Magnitude(ds, base) < TWO63)
      && (Parse(s).Some? ==> (v - Parse(s).value) % TWO64 == 0 && -TWO63 < Parse(s).value < TWO63)
      && (|ds| <= SafeLength(base) ==> (Parse(s).Some? <==> Magnitude(ds, base) < TWO63))
  {
    hide ShapeOf, Fold, Magnitude;
    var Number(negative, base, ds) := ShapeOf(s);
    var m := Magnitude(ds, base);
    MagnitudeNonNegative(ds, base);
    if m < TWO63 {
      FoldExact(ds, base);
    } else if |ds| <= SafeLength(base) {
      FoldRejects(ds, base);
    }
    if Fold(ds, base).Some? {
      var k := FoldCongruent(ds, base);
      var v := if negative then -m else m;
      var j := if negative then -k else k;
      ZeroModulo(v - Parse(s).value, j);
    }
  }

  // ---------------------------------------------------------------- integer_to_string

  datatype Format = Decimal | Hex | Octal

  /** The digits of n without leading zeros. */
  function MinDigits(n: nat, base: nat): (ds: seq<int>)
    requires 2 <= base
    ensures Digits(ds, base) && (n > 0 ==> |ds| > 0 && ds[0] > 0)
  {
    if n == 0 then [] else MinDigits(n / base, base) + [n % base]
  }

  /** The lowest w hex digits of n in two's complement. */
  function HexDigits(n: int, w: nat): (ds: seq<int>)
    ensures Digits(ds, 16) && |ds| == w
    decreases w
  {
    if w == 0 then [] else HexDigits(n / 16, w - 1) + [n % 16]
  }

  /** The text of v.  A negative number has no octal text of its own, and its hex text is
      that of its two's complement. */
  function Printed(v: int, format: Format): string
    requires IsCdlInt(v)
  {
    match format
    case Hex =>
      if v == 0 then "0x0"
      else "0x" + Chars(HexDigits(v, if 0 <= v < 0x1_0000_0000 then 8 else 16))
    case Octal => if v <= 0 then "0" else "0" + Chars(MinDigits(v, 8))
    case Decimal =>
      if v == 0 then "0"
      else if v > 0 then Chars(MinDigits(v, 10))
      else "-" + Chars(MinDigits(-v, 10))
  }

  /** n shifts right by four bits. */
  function Shift(v: int, n: nat): int {
    if n == 0 then v else Shift(v, n - 1) / 16
  }

  /** The digits of the number still to be printed, and those already in the buffer. */
  ghost predicate Written(buf: seq<char>, p: int, last: int, digits: seq<int>)
  {
    && -1 <= p <= last < |buf| && Digits(digits, 16)
    && buf[p + 1..last + 1] == Chars(digits)
  }

  lemma WriteOne(buf: seq<char>, p: int, last: int, digits: seq<int>, d: int)
    requires Written(buf, p, last, digits) && 0 <= p && 0 <= d < 16
    ensures Written(buf[p := CharOf(d)], p - 1, last, [d] + digits)
  {
    var b := buf[p := CharOf(d)];
    assert b[p + 1..last + 1] == buf[p + 1..last + 1];
    assert b[p..last + 1] == [CharOf(d)] + b[p + 1..last + 1];
    assert Chars([d] + digits) == [CharOf(d)] + Chars(digits);
  }

  /** Eight hex digits of value, written downwards from p. */
  method WriteEight(buf: array<char>, p0: nat, value0: int, ghost last: int, ghost done: seq<int>) returns (p: nat, value: int)
    requires 8 <= p0 && Written(buf[..], p0, last, done)
    modifies buf
    ensures p == p0 - 8 && value == Shift(value0, 8)
    ensures Written(buf[..], p, last, HexDigits(value0, 8) + done)
    ensures forall i :: last < i < buf.Length ==> buf[i] == old(buf[i])
  {
    hide Written;
    WrittenRange(buf[..], p0, last, done);
    p, value := p0, value0;
    ghost var tail: seq<int> := done;
    assert HexDigits(value, 8) + tail == HexDigits(value0, 8) + done;
    for i := 0 to 8
      invariant p == p0 - i && value == Shift(value0, i)
      invariant Written(buf[..], p, last, tail)
      invariant HexDigits(value0, 8) + done == HexDigits(value, 8 - i) + tail
      invariant forall k :: last < k < buf.Length ==> buf[k] == old(buf[k])
    {
      WriteOne(buf[..], p, last, tail, value % 16);
      WrittenRange(buf[..], p, last, tail);
      assert HexDigits(value, 8 - i) + tail == HexDigits(value / 16, 7 - i) + ([value % 16] + tail);
      tail := [value % 16] + tail;
      var tmp := value % 16;
      value := value / 16;
      if tmp < 10 {
        buf[p] := '0' + tmp as char;
      } else {
        buf[p] := 'A' + (tmp - 10) as char;
      }
      p := p - 1;
    }
    assert HexDigits(value, 0) + tail == tail;
  }

  lemma WrittenRange(buf: seq<char>, p: int, last: int, digits: seq<int>)
    requires Written(buf, p, last, digits)
    ensures p <= last < |buf|
  {
  }

  /** Eight shifts are a division by 2^32, and what is left fits 32 bits. */
  lemma ShiftEight(v: int)
    requires IsCdlInt(v)
    ensures Shift(v, 8) == v / 0x1_0000_0000 && -0x8000_0000 <= v / 0x1_0000_0000 < 0x8000_0000
    ensures Shift(v, 8) == 0 <==> 0 <= v < 0x1_0000_0000
  {
    var s1 := v / 16;
    var s2 := s1 / 16;
    var s3 := s2 / 16;
    var s4 := s3 / 16;
    var s5 := s4 / 16;
    var s6 := s5 / 16;
    var s7 := s6 / 16;
    assert Shift(v, 0) == v && Shift(v, 1) == s1 && Shift(v, 2) == s2 && Shift(v, 3) == s3 && Shift(v, 4) == s4;
    assert Shift(v, 5) == s5 && Shift(v, 6) == s6 && Shift(v, 7) == s7 && Shift(v, 8) == s7 / 16;
    assert s4 == v / 0x1_0000;
  }

  /** Putting the two 16-bit halves together again gives the same 32-bit number. */
  lemma Halves(v: int)
    requires -0x8000_0000 <= v < 0x8000_0000
    ensures Wrap32((v / 0x1_0000) % 0x1_0000 * 0x1_0000) + v % 0x1_0000 == v
  {
  }

  lemma {:induction false} FixedSplit(v: int, m: nat, n: nat)
    ensures HexDigits(v, m + n) == HexDigits(Shift(v, n), m) + HexDigits(v, n)
    decreases n
  {
    if n == 0 {
      assert HexDigits(v, m) + [] == HexDigits(v, m);
    } else {
      FixedSplit(v / 16, m, n - 1);
      ShiftFirst(v, n);
    }
  }

  lemma {:induction false} ShiftFirst(v: int, n: nat)
    requires n > 0
    ensures Shift(v, n) == Shift(v / 16, n - 1)
  {
    if n > 1 {
      ShiftFirst(v, n - 1);
    }
  }

  /** The digits of value, written downwards from p; the number of digits bounds the room taken. */
  method WriteDown(buf: array<char>, p0: nat, value0: nat, base: nat) returns (p: nat)
    requires base == 8 || base == 10
    requires |MinDigits(value0, base)| <= p0 < buf.Length
    modifies buf
    ensures p == p0 - |MinDigits(value0, base)|
    ensures Written(buf[..], p, p0, MinDigits(value0, base))
    ensures forall i :: p0 < i < buf.Length ==> buf[i] == old(buf[i])
  {
    hide Written, MinDigits;
    p := p0;
    var value: nat := value0;
    ghost var tail: seq<int> := [];
    WrittenNothing(buf[..], p0);
    assert MinDigits(value0, base) == MinDigits(value0, base) + tail;
    while value > 0
      invariant p == p0 - |tail|
      invariant Written(buf[..], p, p0, tail)
      invariant MinDigits(value0, base) == MinDigits(value, base) + tail
      invariant forall k :: p0 < k < buf.Length ==> buf[k] == old(buf[k])
      decreases value
    {
      MinDigitsStep(value, base);
      var rem := value % base;
      WriteOne(buf[..], p, p0, tail, rem);
      value := value / base;
      buf[p] := '0' + rem as char;
      p := p - 1;
      assert MinDigits(value0, base) == MinDigits(value, base) + ([rem] + tail);
      tail := [rem] + tail;
    }
    MinDigitsStep(0, base);
    assert [] + tail == tail;
  }

  lemma MinDigitsStep(n: nat, base: nat)
    requires base == 8 || base == 10
    ensures MinDigits(0, base) == []
    ensures n > 0 ==> n / base < n && 0 <= n % base < base && MinDigits(n, base) == MinDigits(n / base, base) + [n % base]
  {
  }

  lemma WrittenNothing(buf: seq<char>, p: int)
    requires 0 <= p < |buf|
    ensures Written(buf, p, p, [])
  {
  }

  lemma {:induction false} MinDigitsLength(n: nat, base: nat, k: nat)
    requires (base == 8 || base == 10) && n < Pow(base, k)
    ensures |MinDigits(n, base)| <= k
    decreases k
  {
    hide MinDigits, Pow;
    MinDigitsStep(n, base);
    PowStep(base, k);
    if k > 0 && n > 0 {
      DivBelow(n, base, Pow(base, k - 1));
      MinDigitsLength(n / base, base, k - 1);
    }
  }

  lemma PowStep(base: int, k: nat)
    ensures Pow(base, k) == if k == 0 then 1 else base * Pow(base, k - 1)
  {
  }

  lemma DivBelow(n: nat, base: nat, q: int)
    requires (base == 8 || base == 10) && n < base * q
    ensures n / base < q
  {
  }

  /** The text that starts at p in a buffer closed by a terminator. */
  lemma TextAt(buf: seq<char>, p: int, last: int, digits: seq<int>)
    requires Written(buf, p, last, digits)
    ensures buf[p + 1..last + 1] == Chars(digits)
  {
  }

  method PrintHex(value0: int) returns (target: string)
    requires IsCdlInt(value0) && value0 != 0
    ensures target == Printed(value0, Hex)
  {
    hide Written, HexDigits, Shift;
    var buf := new char[24];
    buf[23] := '\0';
    var p: nat, value: int;
    WrittenNothing(buf[..], 22);
    p, value := WriteEight(buf, 22, value0, 22, []);
    ghost var digits := HexDigits(value0, 8) + [];
    ShiftEight(value0);
    Halves(value);
    var tmp1 := value % 0x1_0000;
    var tmp2 := (value / 0x1_0000) % 0x1_0000;
    value := Wrap32(tmp2 * 0x1_0000) + tmp1;
    if value != 0 {
      p, value := WriteEight(buf, p, value, 22, digits);
      FixedSplit(value0, 8, 8);
      digits := HexDigits(Shift(value0, 8), 8) + digits;
      assert digits == HexDigits(value0, 16);
    } else {
      assert digits == HexDigits(value0, 8);
    }
    TextAt(buf[..], p, 22, digits);
    ghost var text := buf[p + 1..23];
    buf[p] := 'x';
    buf[p - 1] := '0';
    assert buf[p + 1..23] == text;
    assert buf[p - 1..23] == ['0', 'x'] + buf[p + 1..23];
    target := buf[p - 1..23];
  }

  method PrintOctal(value0: int) returns (target: string)
    requires IsCdlInt(value0) && value0 != 0
    ensures target == Printed(value0, Octal)
  {
    hide Written, MinDigits;
    var buf := new char[24];
    buf[23] := '\0';
    var p: nat := 22;
    if value0 > 0 {
      SafePowers();
      MinDigitsLength(value0, 8, 21);
      p := WriteDown(buf, 22, value0, 8);
      TextAt(buf[..], p, 22, MinDigits(value0, 8));
      assert buf[p + 1..23] == Chars(MinDigits(value0, 8));
    }
    ghost var text := buf[p + 1..23];
    buf[p] := '0';
    assert buf[p..23] == ['0'] + buf[p + 1..23];
    assert buf[p + 1..23] == text;
    target := buf[p..23];
  }

  method PrintDecimal(value0: int) returns (target: string)
    requires IsCdlInt(value0) && value0 != 0
    ensures target == Printed(value0, Decimal)
  {
    hide Written, MinDigits;
    var negative := false;
    var value := value0;
    if value < 0 {
      negative := true;
      value := Wrap64(0 - value);
      if value < 0 {
        MinimumText();
        return "-9223372036854775808";
      }
    }
    var buf := new char[24];
    buf[23] := '\0';
    SafePowers();
    MinDigitsLength(value, 10, 19);
    var p := WriteDown(buf, 22, value, 10);
    TextAt(buf[..], p, 22, MinDigits(value, 10));
    ghost var text := buf[p + 1..23];
    if negative {
      buf[p] := '-';
      assert buf[p + 1..23] == text;
      assert buf[p..23] == ['-'] + buf[p + 1..23];
      target := buf[p..23];
    } else {
      target := buf[p + 1..23];
    }
  }

  /** integer_to_string; the buffer accesses stay inside its 24 bytes. */
  method IntegerToString(value: int, format: Format) returns (target: string)
    requires IsCdlInt(value)
    ensures target == Printed(value, format)
  {
    hide MinDigits, HexDigits, Chars;
    if value == 0 {
      return if format == Hex then "0x0" else "0";
    }
    match format
    case Hex => target := PrintHex(value);
    case Octal => target := PrintOctal(value);
    case Decimal => target := PrintDecimal(value);
  }

  lemma MinimumFront()
    ensures MinDigits(92233720368, 10) == [9, 2] + [2, 3, 3] + [7, 2, 0] + [3, 6, 8]
  {
    hide MinDigits;
    MinDigitsOf(92, 9, 2);
    MinDigitsOf(9, 0, 9);
    MinDigitsStep(0, 10);
    assert MinDigits(92, 10) == [9, 2];
    MinDigitsOfThree(92233, 92, 2, 3, 3);
    MinDigitsOfThree(92233720, 92233, 7, 2, 0);
    MinDigitsOfThree(92233720368, 92233720, 3, 6, 8);
  }

  lemma MinimumDigits()
    ensures MinDigits(TWO63, 10) == [9, 2] + [2, 3, 3] + [7, 2, 0] + [3, 6, 8] + [5, 4, 7] + [7] + [5, 8, 0] + [8]
  {
    hide MinDigits;
    MinimumFront();
    MinDigitsOfThree(92233720368547, 92233720368, 5, 4, 7);
    MinDigitsOf(922337203685477, 92233720368547, 7);
    MinDigitsOfThree(TWO63 / 10, 922337203685477, 5, 8, 0);
    MinDigitsOf(TWO63, TWO63 / 10, 8);
  }

  lemma MinimumText()
    ensures Printed(-TWO63, Decimal) == "-9223372036854775808"
  {
    hide MinDigits, Chars, Digits;
    MinimumDigits();
    MinimumChars();
  }

  lemma MinimumChars()
    ensures var ds: seq<int> := [9, 2] + [2, 3, 3] + [7, 2, 0] + [3, 6, 8] + [5, 4, 7] + [7] + [5, 8, 0] + [8];
      Digits(ds, 16) && Chars(ds) == "9223372036854775808"
  {
  }

  lemma MinDigitsOfThree(n: nat, q: nat, a: nat, b: nat, c: nat)
    requires n == 1000 * q + 100 * a + 10 * b + c && a < 10 && b < 10 && c < 10 && q > 0
    ensures MinDigits(n, 10) == MinDigits(q, 10) + [a, b, c]
  {
    hide MinDigits;
    MinDigitsOf(n, 100 * q + 10 * a + b, c);
    MinDigitsOf(100 * q + 10 * a + b, 10 * q + a, b);
    MinDigitsOf(10 * q + a, q, a);
  }

  lemma MinDigitsOf(n: nat, q: nat, r: nat)
    requires n == 10 * q + r && 0 <= r < 10 && n > 0
    ensures MinDigits(n, 10) == MinDigits(q, 10) + [r]
  {
    assert n / 10 == q && n % 10 == r;
  }

  // ---------------------------------------------------------------- printing and reading back

  lemma DigitOfChar(d: int, base: int)
    requires base in {8, 10, 16} && 0 <= d < base
    ensures DigitOf(CharOf(d), base) == d && CharOf(d) != '\0'
    ensures !IsSpace(CharOf(d)) && CharOf(d) != '+' && CharOf(d) != '-' && CharOf(d) != 'x' && CharOf(d) != 'X'
    ensures CharOf(d) == '0' <==> d == 0
    ensures base == 8 ==> '0' <= CharOf(d) <= '7'
    ensures base == 10 ==> '0' <= CharOf(d) <= '9'
  {
  }

  /** Digits that close a string are read back as they are. */
  lemma {:induction false} RunOfChars(s: string, i: nat, ds: seq<int>, base: int)
    requires base in {8, 10, 16} && Digits(ds, base) && i <= |s|
    requires Digits(ds, 16) && s[i..] == Chars(ds)
    ensures Run(s, i, base) == ds
    decreases |ds|
  {
    RunStep(s, i, base);
    if ds == [] {
      assert |s[i..]| == 0;
    } else {
      assert |s[i..]| == |ds|;
      assert s[i] == s[i..][0] == CharOf(ds[0]);
      DigitOfChar(ds[0], base);
      assert s[i + 1..] == s[i..][1..] == Chars(ds[1..]);
      RunOfChars(s, i + 1, ds[1..], base);
      assert ds == [ds[0]] + ds[1..];
    }
  }

  lemma {:induction false} MinDigitsMagnitude(n: nat, base: nat)
    requires base == 8 || base == 10
    ensures Magnitude(MinDigits(n, base), base) == n
  {
    hide MinDigits, Magnitude;
    MinDigitsStep(n, base);
    if n > 0 {
      MinDigitsMagnitude(n / base, base);
      var ds := MinDigits(n, base);
      assert ds[..|ds| - 1] == MinDigits(n / base, base);
      MagnitudeStep(ds, base);
    } else {
      MagnitudeNothing(base);
    }
  }

  lemma MagnitudeNothing(base: int)
    ensures Magnitude([], base) == 0
  {
  }

  lemma {:induction false} HexMagnitude(n: nat, w: nat)
    requires n < Pow(16, w)
    ensures Magnitude(HexDigits(n, w), 16) == n
    decreases w
  {
    hide Magnitude;
    if w > 0 {
      HexMagnitude(n / 16, w - 1);
      var ds := HexDigits(n, w);
      assert ds[..|ds| - 1] == HexDigits(n / 16, w - 1);
      MagnitudeStep(ds, 16);
    } else {
      MagnitudeNothing(16);
    }
  }

  /** Hex digits do not see a multiple of the next power of 16. */
  lemma {:induction false} HexPeriodic(n: int, m: int, w: nat)
    requires m == n + Pow(16, w)
    ensures HexDigits(m, w) == HexDigits(n, w)
    decreases w
  {
    if w > 0 {
      assert m == n + 16 * Pow(16, w - 1);
      assert m / 16 == n / 16 + Pow(16, w - 1) && m % 16 == n % 16;
      HexPeriodic(n / 16, m / 16, w - 1);
    }
  }

  /** The shape of a printed number is the number itself, except that a negative number in hex
      is its two's complement and in octal is 0. */
  lemma ShapeOfPrinted(v: int, format: Format)
    requires IsCdlInt(v)
    ensures ShapeOf(Printed(v, format)) == match format
      case Decimal => Number(v < 0, 10, if v == 0 then [0] else MinDigits(if v < 0 then -v else v, 10))
      case Hex => Number(false, 16, if v == 0 then [0] else HexDigits(v, if 0 <= v < 0x1_0000_0000 then 8 else 16))
      case Octal => if v <= 0 then Number(false, 10, [0]) else Number(false, 8, MinDigits(v, 8))
  {
    var s := Printed(v, format);
    match format
    case Hex =>
      if v == 0 {
        assert Chars([0]) == "0";
        ShapeOfHex(s, [0]);
      } else {
        ShapeOfHex(s, HexDigits(v, if 0 <= v < 0x1_0000_0000 then 8 else 16));
      }
    case Octal =>
      if v <= 0 {
        assert Chars([0]) == "0";
        ShapeOfDecimal(s, false, [0]);
      } else {
        ShapeOfOctal(s, MinDigits(v, 8));
      }
    case Decimal =>
      if v == 0 {
        assert Chars([0]) == "0";
        ShapeOfDecimal(s, false, [0]);
      } else if v > 0 {
        ShapeOfDecimal(s, false, MinDigits(v, 10));
      } else {
        ShapeOfDecimal(s, true, MinDigits(-v, 10));
      }
  }

  lemma ShapeOfHex(s: string, ds: seq<int>)
    requires ds != [] && Digits(ds, 16) && s == "0x" + Chars(ds)
    ensures ShapeOf(s) == Number(false, 16, ds)
  {
    assert s[2..] == Chars(ds);
    RunOfChars(s, 2, ds, 16);
  }

  lemma ShapeOfOctal(s: string, ds: seq<int>)
    requires ds != [] && Digits(ds, 8) && Digits(ds, 16) && s == "0" + Chars(ds)
    ensures ShapeOf(s) == Number(false, 8, ds)
  {
    assert s[1..] == Chars(ds);
    RunOfChars(s, 1, ds, 8);
    DigitOfChar(ds[0], 8);
    assert s[1] == CharOf(ds[0]);
  }

  lemma ShapeOfDecimal(s: string, negative: bool, ds: seq<int>)
    requires ds != [] && Digits(ds, 10) && Digits(ds, 16) && (ds[0] == 0 ==> |ds| == 1)
    requires s == (if negative then "-" else "") + Chars(ds)
    ensures ShapeOf(s) == Number(negative, 10, ds)
  {
    var b := if negative then 1 else 0;
    assert s[b..] == Chars(ds);
    RunOfChars(s, b, ds, 10);
    DigitOfChar(ds[0], 10);
    assert s[b] == CharOf(ds[0]);
  }

  /** What reading back a printed number gives. */
  function ReadBack(v: int, format: Format): Option<int>
  {
    match format
    case Decimal => if v == -TWO63 then None else Some(v)
    case Hex => if v < 0 then None else Some(v)
    case Octal => if v < 0 then Some(0) else Some(v)
  }

  /** Printing and reading back: every 64-bit number comes back from decimal except the
      smallest, and from hex and octal exactly the non-negative ones do. */
  lemma RoundTrip(v: int, format: Format)
    requires IsCdlInt(v)
    ensures Parse(Printed(v, format)) == ReadBack(v, format)
    ensures Parse(Printed(v, format)) == Some(v) <==> if format.Decimal? then v != -TWO63 else v >= 0
  {
    hide ShapeOf, Printed, Parse, MinDigits, HexDigits, Magnitude, Pow;
    var s := Printed(v, format);
    ShapeOfPrinted(v, format);
    ParseExact(s);
    MagnitudeOfZero();
    SafePowers();
    if format.Decimal? && v != 0 {
      MinDigitsMagnitude(if v < 0 then -v else v, 10);
      MinDigitsLength(if v < 0 then -v else v, 10, 19);
    } else if format.Octal? && v > 0 {
      MinDigitsMagnitude(v, 8);
    } else if format.Hex? && v != 0 {
      HexPowers();
      if v < 0 {
        HexPeriodic(v, v + TWO64, 16);
        HexMagnitude(v + TWO64, 16);
      } else {
        HexMagnitude(v, if v < 0x1_0000_0000 then 8 else 16);
      }
    }
  }

  lemma MagnitudeOfZero()
    ensures Magnitude([0], 10) == 0 && Magnitude([0], 16) == 0
  {
    assert [0][..0] == [];
  }

  lemma HexPowers()
    ensures Pow(16, 8) == 0x1_0000_0000
  {
    assert Pow(16, 4) == 0x1_0000;
  }

  function Ones(n: nat): (ds: seq<int>)
    ensures Digits(ds, 8) && Digits(ds, 16) && |ds| == n
  {
    seq(n, _ => 1)
  }

  lemma {:induction false} OnesMagnitude(n: nat)
    ensures 15 * Magnitude(Ones(n), 16) + 1 == Pow(16, n)
  {
    if n > 0 {
      OnesMagnitude(n - 1);
      assert Ones(n)[..n - 1] == Ones(n - 1);
    }
  }

  /** Seventeen hex digits can slip past the overflow test: the leading digit is lost. */
  lemma UndetectedOverflow()
    ensures Parse("0x" + Chars(Ones(17))) == Some(0x1111_1111_1111_1111)
    ensures Magnitude(Ones(17), 16) == 0x1_1111_1111_1111_1111
  {
    hide Magnitude, Pow, Fold;
    ShapeOfHex("0x" + Chars(Ones(17)), Ones(17));
    OnesMagnitude(16);
    OnesMagnitude(17);
    SafePowers();
    PowStep(16, 17);
    FoldExact(Ones(16), 16);
    FoldStep(Ones(16), 1, 16);
    assert Ones(16) + [1] == Ones(17);
  }
}
