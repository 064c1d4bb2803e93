/** Which texts Cdl::string_to_integer reads as which numbers (ecos/host/libcdl/cdlmisc.cxx), said of
    the texts put together from their parts. */
module IntegerTexts {
  import opened Common
  import opened Integers

  /** c is the digit of value d. */
  ghost predicate IsDigit(c: char, d: int) {
    0 <= d < 16 && (c == "0123456789abcdef"[d] || c == "0123456789ABCDEF"[d])
  }

  /** The digits of a text have these values. */
  ghost predicate Spells(text: string, ds: seq<int>, base: int) {
    |text| == |ds| && forall i :: 0 <= i < |ds| ==> 0 <= ds[i] < base && IsDigit(text[i], ds[i])
  }

  /** Each digit times its power of the base. */
  function Positional(ds: seq<int>, base: int): int {
    if ds == [] then 0 else ds[0] * Pow(base, |ds| - 1) + Positional(ds[1..], base)
  }

  lemma LowDigit(c: char, d: int)
    requires 0 <= d < 10
    ensures IsDigit(c, d) <==> c as int == '0' as int + d
  {
    var low, high := "0123456789abcdef", "0123456789ABCDEF";
    assert low[0] == '0' && low[1] == '1' && low[2] == '2' && low[3] == '3' && low[4] == '4';
    assert low[5] == '5' && low[6] == '6' && low[7] == '7' && low[8] == '8' && low[9] == '9';
    assert low[..10] == high[..10];
    assert low[d] == low[..10][d] && high[d] == high[..10][d];
  }

  lemma HighDigit(c: char, d: int)
    requires 10 <= d < 16
    ensures IsDigit(c, d) <==> c as int == 'a' as int + d - 10 || c as int == 'A' as int + d - 10
  {
    var low, high := "0123456789abcdef", "0123456789ABCDEF";
    assert low[10] == 'a' && low[11] == 'b' && low[12] == 'c' && low[13] == 'd' && low[14] == 'e' && low[15] == 'f';
    assert high[10] == 'A' && high[11] == 'B' && high[12] == 'C' && high[13] == 'D' && high[14] == 'E' && high[15] == 'F';
  }

  lemma DigitExactly(c: char, base: int, d: int)
    requires base in {8, 10, 16}
    ensures DigitOf(c, base) == d && d != -1 <==> 0 <= d < base && IsDigit(c, d)
  {
    hide IsDigit;
    if 0 <= d < 10 {
      LowDigit(c, d);
    } else if 10 <= d < 16 {
      HighDigit(c, d);
    }
  }

  lemma {:induction false} PositionalStep(ds: seq<int>, d: int, base: int)
    ensures Positional(ds + [d], base) == base * Positional(ds, base) + d
  {
    if ds == [] {
      assert ds + [d] == [d];
      assert [d][1..] == [];
    } else {
      PositionalStep(ds[1..], d, base);
      assert (ds + [d])[1..] == ds[1..] + [d];
      Distribute(base, ds[0], Pow(base, |ds| - 1), Positional(ds[1..], base));
    }
  }

  lemma Distribute(base: int, x: int, p: int, rest: int)
    ensures x * (base * p) + base * rest == base * (x * p + rest)
  {
  }

  /** The number the digits denote. */
  lemma {:induction false} MagnitudeIsPositional(ds: seq<int>, base: int)
    ensures Magnitude(ds, base) == Positional(ds, base)
  {
    hide Positional;
    if ds == [] {
      PositionalNothing(base);
    } else {
      MagnitudeIsPositional(ds[..|ds| - 1], base);
      PositionalStep(ds[..|ds| - 1], ds[|ds| - 1], base);
      assert ds[..|ds| - 1] + [ds[|ds| - 1]] == ds;
    }
  }

  lemma PositionalNothing(base: int)
    ensures Positional([], base) == 0
  {
  }

  // ---------------------------------------------------------------- pieces of a text

  lemma AtJoin(a: string, b: string, k: nat)
    ensures At(a + b, |a| + k) == At(b, k)
    ensures k < |a| ==> At(a + b, k) == a[k]
  {
  }

  lemma SkipStep(s: string, i: nat)
    ensures SkipSpaces(s, i) == if IsSpace(At(s, i)) then SkipSpaces(s, i + 1) else i
  {
  }

  ghost predicate White(c: char) {
    c in [' ', '\t', '\n', 11 as char, 12 as char, '\r']
  }

  lemma WhiteIsSpace(c: char)
    ensures White(c) <==> IsSpace(c)
  {
  }

  lemma {:induction false} SkipsWhite(space: string, rest: string, i: nat)
    requires i <= |space| && (forall c :: c in space ==> White(c)) && !White(At(rest, 0))
    ensures SkipSpaces(space + rest, i) == |space|
    decreases |space| - i
  {
    hide SkipSpaces, White, IsSpace;
    SkipStep(space + rest, i);
    AtJoin(space, rest, 0);
    AtJoin(space, rest, i);
    WhiteIsSpace(At(space + rest, i));
    if i < |space| {
      assert space[i] in space;
      SkipsWhite(space, rest, i + 1);
    }
  }

  lemma {:induction false} SkippedIsWhite(s: string, i: nat)
    requires i <= |s|
    ensures i <= SkipSpaces(s, i) <= |s| && forall k :: i <= k < SkipSpaces(s, i) ==> White(s[k])
    ensures !White(At(s, SkipSpaces(s, i)))
    decreases |s| - i
  {
    hide SkipSpaces, White, IsSpace;
    SkipStep(s, i);
    WhiteIsSpace(At(s, i));
    if IsSpace(At(s, i)) {
      NoSpaceAtEnd(s, i);
      SkippedIsWhite(s, i + 1);
    }
  }

  lemma NoSpaceAtEnd(s: string, i: nat)
    ensures IsSpace(At(s, i)) ==> i < |s|
  {
  }

  /** Digits up to the end of a text are read as what they are. */
  lemma {:induction false} RunReads(s: string, i: nat, ds: seq<int>, base: int)
    requires base in {8, 10, 16} && i <= |s| && Spells(s[i..], ds, base)
    ensures Run(s, i, base) == ds
    decreases |ds|
  {
    hide Run, IsDigit, DigitOf;
    RunStep(s, i, base);
    if ds == [] {
      NoDigitAtEnd(s, i, base);
    } else {
      assert s[i] == s[i..][0];
      DigitExactly(s[i], base, ds[0]);
      assert s[i + 1..] == s[i..][1..];
      RunReads(s, i + 1, ds[1..], base);
      assert ds == [ds[0]] + ds[1..];
    }
  }

  lemma NoDigitAtEnd(s: string, i: nat, base: int)
    ensures i >= |s| ==> DigitOf(At(s, i), base) == -1
  {
  }

  lemma {:induction false} RunIsSpelled(s: string, i: nat, base: int)
    requires base in {8, 10, 16} && i <= |s|
    ensures var ds := Run(s, i, base); i + |ds| <= |s| && Spells(s[i..i + |ds|], ds, base)
    decreases |s| - i
  {
    hide Run, IsDigit, DigitOf;
    RunStep(s, i, base);
    var d := DigitOf(At(s, i), base);
    if d != -1 {
      NoDigitAtEnd(s, i, base);
      RunIsSpelled(s, i + 1, base);
      DigitExactly(s[i], base, d);
      SpellsNext(s, i, d, Run(s, i + 1, base), base);
    }
  }

  lemma SpellsNext(s: string, i: nat, d: int, ds: seq<int>, base: int)
    requires i < |s| && 0 <= d < base && IsDigit(s[i], d)
    requires i + 1 + |ds| <= |s| && Spells(s[i + 1..i + 1 + |ds|], ds, base)
    ensures Spells(s[i..i + |[d] + ds|], [d] + ds, base)
  {
    hide IsDigit;
    var t := s[i..i + |[d] + ds|];
    forall k | 0 <= k < |[d] + ds|
      ensures 0 <= ([d] + ds)[k] < base && IsDigit(t[k], ([d] + ds)[k])
    {
      if k > 0 {
        assert t[k] == s[i + 1..i + 1 + |ds|][k - 1];
      }
    }
  }

  // ---------------------------------------------------------------- numbers

  /** White space, possibly a '+', possibly a '-', and "0x" or "0X" with hex digits, "0" with octal
      digits, or decimal digits, which may be none but are not octal ones behind a '0'. */
  ghost predicate Form(space: string, plus: string, minus: string, prefix: string, digits: string, base: int) {
    && (forall c :: c in space ==> White(c))
    && (plus == "" || plus == "+") && (minus == "" || minus == "-")
    && (base == 16 || base == 8 || base == 10)
    && (base == 16 ==> (prefix == "0x" || prefix == "0X") && digits != "")
    && (base == 8 ==> prefix == "0" && digits != "")
    && (base == 10 ==> prefix == "" && !(|digits| >= 2 && digits[0] == '0' && digits[1] in "01234567"))
  }

  lemma OctalDigits(c: char)
    ensures c in "01234567" <==> '0' <= c <= '7'
  {
    var o := "01234567";
    assert o[0] == '0' && o[1] == '1' && o[2] == '2' && o[3] == '3' && o[4] == '4' && o[5] == '5' && o[6] == '6' && o[7] == '7';
    if '0' <= c <= '7' {
      assert o[c as int - '0' as int] == c;
    }
  }

  /** What is behind the signs, with the digits read. */
  lemma FrontOfNumber(prefix: string, digits: string, ds: seq<int>, base: int)
    requires Form("", "", "", prefix, digits, base) && Spells(digits, ds, base)
    ensures var t := prefix + digits;
      && !White(At(t, 0)) && At(t, 0) != '+' && At(t, 0) != '-'
      && (base == 16 ==> At(t, 0) == '0' && At(t, 1) in {'x', 'X'})
      && (base == 8 ==> At(t, 0) == '0' && '0' <= At(t, 1) <= '7')
      && (base == 10 ==> !(At(t, 0) == '0' && (At(t, 1) in {'x', 'X'} || '0' <= At(t, 1) <= '7')))
  {
    hide IsDigit;
    if |ds| > 0 {
      DigitExactly(digits[0], base, ds[0]);
    }
    if |ds| > 1 {
      DigitExactly(digits[1], base, ds[1]);
      OctalDigits(digits[1]);
    }
    if prefix == "" {
      assert prefix + digits == digits;
    } else {
      assert (prefix + digits)[0] == '0' && At(prefix + digits, 1) == if base == 16 then prefix[1] else digits[0];
    }
  }

  /** The grammar, from where space and signs end. */
  lemma ShapeAt(s: string, p: nat, q: nat, b: nat, base: int, start: nat)
    requires p == SkipSpaces(s, 0) && q == (if At(s, p) == '+' then p + 1 else p) && b == (if At(s, q) == '-' then q + 1 else q)
    requires base == 16 || base == 8 || base == 10
    requires base == 16 ==> At(s, b) == '0' && At(s, b + 1) in {'x', 'X'} && start == b + 2
    requires base == 8 ==> At(s, b) == '0' && '0' <= At(s, b + 1) <= '7' && start == b + 1
    requires base == 10 ==> !(At(s, b) == '0' && (At(s, b + 1) in {'x', 'X'} || '0' <= At(s, b + 1) <= '7')) && start == b
    ensures var ds := Run(s, start, base);
      ShapeOf(s) == if (base == 16 && ds == []) || At(s, start + |ds|) != '\0' then Malformed else Number(At(s, q) == '-', base, ds)
  {
    hide SkipSpaces, Run, At;
  }

  lemma ShapeOfForm(space: string, plus: string, minus: string, prefix: string, digits: string, ds: seq<int>, base: int)
    requires Form(space, plus, minus, prefix, digits, base) && Spells(digits, ds, base)
    ensures ShapeOf(space + plus + minus + prefix + digits) == Number(minus == "-", base, ds)
  {
    hide SkipSpaces, Run, White, IsDigit, Spells, ShapeOf, At;
    var s, t := space + plus + minus + prefix + digits, prefix + digits;
    var b := |space + plus + minus|;
    FrontOfNumber(prefix, digits, ds, base);
    Signs(space, plus, minus, t);
    assert space + plus + minus + t == s;
    AtJoin(space + plus + minus, t, 0);
    AtJoin(space + plus + minus, t, 1);
    ShapeAt(s, |space|, |space + plus|, b, base, b + |prefix|);
    assert s[b + |prefix|..] == digits;
    RunReads(s, b + |prefix|, ds, base);
    SpelledLength(digits, ds, base);
    AtEnd(s);
  }

  lemma AtEnd(s: string)
    ensures At(s, |s|) == '\0'
  {
  }

  lemma SpelledLength(digits: string, ds: seq<int>, base: int)
    requires Spells(digits, ds, base)
    ensures |digits| == |ds|
  {
  }

  /** Where space and signs end. */
  lemma Signs(space: string, plus: string, minus: string, t: string)
    requires (forall c :: c in space ==> White(c)) && (plus == "" || plus == "+") && (minus == "" || minus == "-")
    requires !White(At(t, 0)) && At(t, 0) != '+' && At(t, 0) != '-'
    ensures var s := space + plus + minus + t;
      && SkipSpaces(s, 0) == |space|
      && (At(s, |space|) == '+' <==> plus == "+") && (At(s, |space + plus|) == '-' <==> minus == "-")
  {
    hide SkipSpaces;
    var s := space + plus + minus + t;
    assert s == space + (plus + (minus + t)) && s == space + plus + (minus + t);
    AtJoin(space, plus + (minus + t), 0);
    AtJoin(space + plus, minus + t, 0);
    assert minus == "" ==> minus + t == t;
    assert plus == "" ==> plus + (minus + t) == minus + t;
    SkipsWhite(space, plus + (minus + t), 0);
  }

  /** A text of this form denotes its sign times the positional value of its digits.  The number is
      what is read if and only if it is below 2^63; with no more than 16 hex, 19 decimal or 21 octal
      digits the text is rejected if it is not. */
  lemma FormIsRead(space: string, plus: string, minus: string, prefix: string, digits: string, ds: seq<int>, base: int)
    requires Form(space, plus, minus, prefix, digits, base) && Spells(digits, ds, base)
    ensures
      var s := space + plus + minus + prefix + digits;
      var n := Positional(ds, base);
      && (Parse(s) == Some(if minus == "-" then -n else n) <==> n < 0x8000_0000_0000_0000)
      && (|ds| <= (if base == 16 then 16 else if base == 10 then 19 else 21) ==>
            (Parse(s).Some? <==> n < 0x8000_0000_0000_0000))
  {
    hide ShapeOf, Parse, Magnitude, Positional, IsDigit;
    ShapeOfForm(space, plus, minus, prefix, digits, ds, base);
    ParseExact(space + plus + minus + prefix + digits);
    MagnitudeIsPositional(ds, base);
  }

  /** Nothing else is read: a text that is accepted is of this form. */
  lemma OnlyForms(s: string) returns (space: string, plus: string, minus: string, prefix: string, digits: string, ds: seq<int>, base: int)
    requires Parse(s).Some? && '\0' !in s
    ensures s == space + plus + minus + prefix + digits
    ensures Form(space, plus, minus, prefix, digits, base) && Spells(digits, ds, base)
  {
    hide SkipSpaces, Run, White, IsDigit, Fold, Spells, ShapeOf, At, Form;
    var p := SkipSpaces(s, 0);
    SkippedIsWhite(s, 0);
    var q := if At(s, p) == '+' then p + 1 else p;
    var b := if At(s, q) == '-' then q + 1 else q;
    var hex := At(s, b) == '0' && At(s, b + 1) in {'x', 'X'};
    var oct := At(s, b) == '0' && '0' <= At(s, b + 1) <= '7';
    var start := if hex then b + 2 else if oct then b + 1 else b;
    base := if hex then 16 else if oct then 8 else 10;
    ShapeAt(s, p, q, b, base, start);
    ds := Run(s, start, base);
    assert ShapeOf(s) == Number(At(s, q) == '-', base, ds);
    Within(s, p, q, b, start);
    SpelledToEnd(s, start, base);
    Pieces(s, p, q, b, start);
    PiecesForm(s, p, q, b, start, base);
    hide *;
    space, plus, minus, prefix, digits := s[..p], s[p..q], s[q..b], s[b..start], s[start..];
  }

  lemma SpelledToEnd(s: string, start: nat, base: int)
    requires base in {8, 10, 16} && start <= |s| && '\0' !in s && At(s, start + |Run(s, start, base)|) == '\0'
    ensures Spells(s[start..], Run(s, start, base), base)
    ensures Run(s, start, base) != [] ==> start < |s|
  {
    hide Run, Spells, At;
    var ds := Run(s, start, base);
    RunIsSpelled(s, start, base);
    NoNul(s, start + |ds|);
    assert s[start..start + |ds|] == s[start..];
  }

  lemma Within(s: string, p: nat, q: nat, b: nat, start: nat)
    requires p <= |s| && q == (if At(s, p) == '+' then p + 1 else p) && b == (if At(s, q) == '-' then q + 1 else q)
    requires start == b || (At(s, b) == '0' && start == b + 1) || (At(s, b) == '0' && At(s, b + 1) in {'x', 'X'} && start == b + 2)
    ensures p <= q <= b <= start <= |s|
  {
  }

  lemma PiecesForm(s: string, p: nat, q: nat, b: nat, start: nat, base: int)
    requires p <= q <= b <= start <= |s| && (forall k :: 0 <= k < p ==> White(s[k]))
    requires q == (if At(s, p) == '+' then p + 1 else p) && b == (if At(s, q) == '-' then q + 1 else q)
    requires base == 16 || base == 8 || base == 10
    requires base == 16 ==> At(s, b) == '0' && At(s, b + 1) in {'x', 'X'} && start == b + 2 && start < |s|
    requires base == 8 ==> At(s, b) == '0' && '0' <= At(s, b + 1) <= '7' && start == b + 1
    requires base == 10 ==> !(At(s, b) == '0' && '0' <= At(s, b + 1) <= '7') && start == b
    ensures Form(s[..p], s[p..q], s[q..b], s[b..start], s[start..], base)
  {
    hide White;
    assert s[p..q] == if q == p then "" else [s[p]];
    assert s[q..b] == if b == q then "" else [s[q]];
    assert s[b..start] == if base == 16 then [s[b], s[b + 1]] else if base == 8 then [s[b]] else "";
    if base == 10 && |s| > b + 1 {
      assert s[start..][0] == s[b] && s[start..][1] == s[b + 1];
      OctalDigits(s[b + 1]);
    }
  }

  lemma NoNul(s: string, i: nat)
    requires '\0' !in s && At(s, i) == '\0'
    ensures i >= |s|
  {
  }

  lemma Pieces(s: string, p: nat, q: nat, b: nat, start: nat)
    requires p <= q <= b <= start <= |s|
    ensures s == s[..p] + s[p..q] + s[q..b] + s[b..start] + s[start..]
  {
  }

  lemma AtUpToNul(s: string, t: string, i: nat)
    requires i <= |s|
    ensures At(s + "\0" + t, i) == At(s, i)
  {
  }

  lemma {:induction false} SkipsUpToNul(s: string, t: string, i: nat)
    requires i <= |s|
    ensures SkipSpaces(s + "\0" + t, i) == SkipSpaces(s, i) <= |s|
    decreases |s| - i
  {
    hide SkipSpaces, IsSpace;
    SkipStep(s, i);
    SkipStep(s + "\0" + t, i);
    AtUpToNul(s, t, i);
    NoSpaceAtEnd(s, i);
    if IsSpace(At(s, i)) {
      SkipsUpToNul(s, t, i + 1);
    }
  }

  lemma {:induction false} RunsUpToNul(s: string, t: string, i: nat, base: int)
    requires base in {8, 10, 16} && i <= |s|
    ensures Run(s + "\0" + t, i, base) == Run(s, i, base) && i + |Run(s, i, base)| <= |s|
    decreases |s| - i
  {
    hide Run, DigitOf;
    RunStep(s, i, base);
    RunStep(s + "\0" + t, i, base);
    AtUpToNul(s, t, i);
    NoDigitAtEnd(s, i, base);
    if DigitOf(At(s, i), base) != -1 {
      RunsUpToNul(s, t, i + 1, base);
    }
  }

  /** A text ends where its first NUL is. */
  lemma ReadsUpToNul(s: string, t: string)
    ensures Parse(s + "\0" + t) == Parse(s)
  {
    hide SkipSpaces, Run, Fold, ShapeOf, At;
    var u := s + "\0" + t;
    SkipsUpToNul(s, t, 0);
    var p := SkipSpaces(s, 0);
    AtUpToNul(s, t, p);
    var q := if At(s, p) == '+' then p + 1 else p;
    var b := if At(s, q) == '-' then q + 1 else q;
    Within(s, p, q, b, b);
    AtUpToNul(s, t, q);
    AtUpToNul(s, t, b);
    AtEnd(s);
    if At(s, b) == '0' {
      AtUpToNul(s, t, b + 1);
    }
    var hex := At(s, b) == '0' && At(s, b + 1) in {'x', 'X'};
    var oct := At(s, b) == '0' && '0' <= At(s, b + 1) <= '7';
    var start := if hex then b + 2 else if oct then b + 1 else b;
    var base := if hex then 16 else if oct then 8 else 10;
    Within(s, p, q, b, start);
    ShapeAt(s, p, q, b, base, start);
    ShapeAt(u, p, q, b, base, start);
    RunsUpToNul(s, t, start, base);
    AtUpToNul(s, t, start + |Run(s, start, base)|);
  }

  // ---------------------------------------------------------------- what is printed

  lemma PrintedDigit(d: int)
    requires 0 <= d < 16
    ensures CharOf(d) in "0123456789ABCDEF" && (d < 10 ==> CharOf(d) in "0123456789") && (d < 8 ==> CharOf(d) in "01234567")
    ensures CharOf(d) == '0' <==> d == 0
  {
    var high := "0123456789ABCDEF";
    assert high[0] == '0' && high[1] == '1' && high[2] == '2' && high[3] == '3' && high[4] == '4' && high[5] == '5';
    assert high[6] == '6' && high[7] == '7' && high[8] == '8' && high[9] == '9' && high[10] == 'A' && high[11] == 'B';
    assert high[12] == 'C' && high[13] == 'D' && high[14] == 'E' && high[15] == 'F';
    assert CharOf(d) == high[d];
    assert d < 10 ==> "0123456789"[d] == high[d] by { assert "0123456789" == high[..10]; }
    assert d < 8 ==> "01234567"[d] == high[d] by { assert "01234567" == high[..8]; }
  }

  lemma CharsForm(ds: seq<int>, base: int)
    requires Digits(ds, 16) && Digits(ds, base) && base in {8, 10, 16}
    ensures forall c :: c in Chars(ds) ==>
      c in "0123456789ABCDEF" && (base == 10 ==> c in "0123456789") && (base == 8 ==> c in "01234567")
    ensures ds != [] ==> (Chars(ds)[0] == '0' <==> ds[0] == 0)
  {
    hide CharOf;
    forall i | 0 <= i < |ds|
      ensures var c := Chars(ds)[i];
        c in "0123456789ABCDEF" && (base == 10 ==> c in "0123456789") && (base == 8 ==> c in "01234567")
    {
      PrintedDigit(ds[i]);
    }
    if ds != [] {
      PrintedDigit(ds[0]);
    }
  }

  /** Hex is printed as "0x" and 8 or 16 capital digits; octal as '0' and digits without further
      zeros in front; decimal without zeros in front, behind '-' if negative.  What the digits are
      follows from the round trip. */
  lemma PrintedHex(v: int)
    requires IsCdlInt(v)
    ensures var s := Printed(v, Hex);
      && "0x" <= s && |s| == (if v == 0 then 3 else if 0 < v < 0x1_0000_0000 then 10 else 18)
      && forall c :: c in s[2..] ==> c in "0123456789ABCDEF"
  {
    hide HexDigits, Chars;
    if v == 0 {
      assert "0x0"[2..] == "0" && Chars([0]) == "0" by { PrintedDigit(0); }
      CharsForm([0], 16);
    } else {
      var ds := HexDigits(v, if 0 <= v < 0x1_0000_0000 then 8 else 16);
      CharsForm(ds, 16);
      assert ("0x" + Chars(ds))[2..] == Chars(ds);
    }
  }

  lemma PrintedOctal(v: int)
    requires IsCdlInt(v)
    ensures var s := Printed(v, Octal);
      && "0" <= s && (|s| > 1 <==> v > 0) && (|s| > 1 ==> s[1] != '0')
      && forall c :: c in s ==> c in "01234567"
  {
    hide MinDigits, Chars;
    PrintedDigit(0);
    if v > 0 {
      CharsForm(MinDigits(v, 8), 8);
    }
  }

  lemma PrintedDecimal(v: int)
    requires IsCdlInt(v)
    ensures var s := Printed(v, Decimal);
      var digits := if v < 0 then s[1..] else s;
      && (v < 0 ==> "-" <= s) && digits != "" && (digits[0] == '0' <==> v == 0) && (v == 0 ==> s == "0")
      && forall c :: c in digits ==> c in "0123456789"
  {
    hide MinDigits, Chars;
    PrintedDigit(0);
    if v > 0 {
      CharsForm(MinDigits(v, 10), 10);
    } else if v < 0 {
      CharsForm(MinDigits(-v, 10), 10);
      assert ("-" + Chars(MinDigits(-v, 10)))[1..] == Chars(MinDigits(-v, 10));
    }
  }
}
