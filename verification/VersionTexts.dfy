/** Which of two versions is the newer one (ecos/host/libcdl/cdlmisc.cxx, Cdl::compare_versions), said
    of the texts of the versions. */
module VersionTexts {
  import opened Common
  import opened Versions
  import Integers
  import IntegerTexts

  ghost predicate Separates(c: char) {
    c in ".-_"
  }

  lemma SeparatesIs(c: char)
    ensures Separates(c) <==> IsSeparator(c)
    ensures Separates(c) ==> !IsDigit(c) && c != '\0'
  {
    assert ".-_"[0] == '.' && ".-_"[1] == '-' && ".-_"[2] == '_';
  }

  /** No digit run goes on beyond the common text s. */
  ghost predicate Breaks(s: string, rest: string) {
    rest == "" || rest[0] < '0' || rest[0] > '9' || s == "" || s[|s| - 1] < '0' || s[|s| - 1] > '9'
  }

  // ---------------------------------------------------------------- the common text

  lemma {:induction false} RunWithin(s: string, rest: string, i: nat, acc: int)
    requires i < |s| && Breaks(s, rest)
    ensures RunEnd(s + rest, i) == RunEnd(s, i) <= |s|
    ensures RunValue(s + rest, i, acc) == RunValue(s, i, acc)
    decreases |s| - i
  {
    assert (s + rest)[i] == s[i];
    if DigitAt(s, i) {
      if i + 1 < |s| {
        RunWithin(s, rest, i + 1, Wrap32(10 * acc + (s[i] as int - '0' as int)));
      } else {
        assert rest != "" ==> (s + rest)[|s|] == rest[0];
        assert !DigitAt(s + rest, |s|);
      }
    }
  }

  /** What two versions have in common at the start does not matter. */
  lemma {:induction false} CommonStart(s: string, a: string, b: string, i: nat)
    requires i <= |s| && '\0' !in s && Breaks(s, a) && Breaks(s, b)
    ensures Lex(Tokens(s + a, i), Tokens(s + b, i)) == Lex(Tokens(s + a, |s|), Tokens(s + b, |s|))
    decreases |s| - i
  {
    if i < |s| {
      LexCases(s + a, i, s + b, i);
      assert (s + a)[i] == s[i] && (s + b)[i] == s[i] && s[i] in s;
      hide Lex, Tokens, Breaks, RunValue;
      if IsDigit(s[i]) {
        RunWithin(s, a, i, 0);
        RunWithin(s, b, i, 0);
        Advances(s, i);
        CommonStart(s, a, b, RunEnd(s, i));
      } else {
        CommonStart(s, a, b, i + 1);
      }
    }
  }

  lemma Advances(s: string, i: nat)
    requires i < |s| && IsDigit(s[i])
    ensures RunEnd(s, i) > i
  {
  }

  ghost predicate BothV(a: string, b: string) {
    a != "" && b != "" && a[0] in "vV" && b[0] in "vV"
  }

  lemma BothVIs(a: string, b: string)
    ensures BothV(a, b) <==> StartsWithV(a) && StartsWithV(b)
  {
    assert "vV"[0] == 'v' && "vV"[1] == 'V';
  }

  /** Behind a common text the rest decides. */
  lemma RestDecides(s: string, a: string, b: string)
    requires '\0' !in s && Breaks(s, a) && Breaks(s, b) && a != b
    requires s + a != "current" && s + b != "current" && (s == "" ==> !BothV(a, b))
    ensures Compare(s + a, s + b) == Lex(Tokens(s + a, |s|), Tokens(s + b, |s|))
  {
    hide Lex, Tokens, Breaks;
    BothVIs(a, b);
    assert s + a != s + b by {
      assert (s + a)[|s|..] == a && (s + b)[|s|..] == b;
    }
    if s == "" {
      assert s + a == a && s + b == b;
    } else {
      assert (s + a)[0] == s[0] && (s + b)[0] == s[0];
      CommonStart(s, a, b, if StartsWithV(s) then 1 else 0);
    }
  }

  // ---------------------------------------------------------------- longer and shorter

  /** With a separator and more behind it a version is newer, with anything else but a digit older:
      "v0.3.p1" is newer and "v0.3beta" older than "v0.3". */
  lemma Derived(s: string, c: char, t: string)
    requires '\0' !in s && c != '\0' && !('0' <= c <= '9') && s != "current" && s + [c] + t != "current"
    ensures Compare(s + [c] + t, s) == if c == '.' || c == '-' || c == '_' then -1 else 1
    ensures Compare(s, s + [c] + t) == if c == '.' || c == '-' || c == '_' then 1 else -1
  {
    hide Lex, Tokens, Compare;
    var a, b := [c] + t, "";
    assert s + a == s + [c] + t && s + b == s;
    SeparatesIs(c);
    RestDecides(s, a, b);
    LexCases(s + a, |s|, s + b, |s|);
    assert (s + a)[|s|] == c;
    CompareOpposite(s + a, s + b);
  }

  /** Where two versions differ first, a separator makes its version the newer one; of other
      characters, not both digits, the larger one does. */
  lemma FirstDifference(s: string, c: char, t: string, d: char, u: string)
    requires '\0' !in s && c != '\0' && d != '\0' && c != d && !(Separates(c) && Separates(d))
    requires s + [c] + t != "current" && s + [d] + u != "current" && (s == "" ==> !(c in "vV" && d in "vV"))
    requires !('0' <= c <= '9' && '0' <= d <= '9') && Breaks(s, [c]) && Breaks(s, [d])
    ensures Compare(s + [c] + t, s + [d] + u) ==
      if c == '.' || c == '-' || c == '_' then -1
      else if d == '.' || d == '-' || d == '_' then 1
      else if c > d then -1 else 1
  {
    hide Lex, Tokens, Compare;
    var a, b := [c] + t, [d] + u;
    assert s + a == s + [c] + t && s + b == s + [d] + u;
    assert a[0] == c && b[0] == d;
    SeparatesIs(c);
    SeparatesIs(d);
    RestDecides(s, a, b);
    LexCases(s + a, |s|, s + b, |s|);
    assert (s + a)[|s|] == c && (s + b)[|s|] == d;
  }

  // ---------------------------------------------------------------- what does not matter

  lemma {:induction false} RunShifted(a: string, t: string, i: nat, acc: int)
    requires i <= |t|
    ensures RunEnd(a + t, |a| + i) == |a| + RunEnd(t, i) && RunValue(a + t, |a| + i, acc) == RunValue(t, i, acc)
    decreases |t| - i
  {
    if i < |t| {
      assert (a + t)[|a| + i] == t[i];
      if DigitAt(t, i) {
        RunShifted(a, t, i + 1, Wrap32(10 * acc + (t[i] as int - '0' as int)));
      }
    }
  }

  /** The tokens behind some text are those of the rest. */
  lemma {:induction false} TokensShifted(a: string, t: string, i: nat)
    requires i <= |t|
    ensures Tokens(a + t, |a| + i) == Tokens(t, i)
    decreases |t| - i
  {
    TokensSplit(a + t, |a| + i);
    TokensSplit(t, i);
    RunShifted(a, t, i, 0);
    assert i < |t| ==> (a + t)[|a| + i] == t[i];
    hide Tokens, RunValue, RunEnd;
    if i < |t| && t[i] != '\0' {
      TokensShifted(a, t, if IsDigit(t[i]) then RunEnd(t, i) else i + 1);
    }
  }

  lemma TokensSplit(s: string, i: nat)
    requires i <= |s|
    ensures Ends(s, i) ==> Tokens(s, i) == []
    ensures !Ends(s, i) && IsDigit(s[i]) ==>
      i < RunEnd(s, i) <= |s| && Tokens(s, i) == [Num(RunValue(s, i, 0))] + Tokens(s, RunEnd(s, i))
    ensures !Ends(s, i) && !IsDigit(s[i]) ==>
      Tokens(s, i) == [if IsSeparator(s[i]) then Sep else Ch(s[i])] + Tokens(s, i + 1)
  {
  }

  lemma {:induction false} TokensExchanged(s: string, c: char, d: char, t: string, i: nat)
    requires i <= |s| && Separates(c) && Separates(d)
    ensures Tokens(s + [c] + t, i) == Tokens(s + [d] + t, i)
    decreases |s| - i
  {
    var a, b := s + [c] + t, s + [d] + t;
    SeparatesIs(c);
    SeparatesIs(d);
    TokensSplit(a, i);
    TokensSplit(b, i);
    if i < |s| {
      assert a[i] == s[i] && b[i] == s[i];
      if s[i] != '\0' && IsDigit(s[i]) {
        assert s + ([c] + t) == a && s + ([d] + t) == b;
        RunWithin(s, [c] + t, i, 0);
        RunWithin(s, [d] + t, i, 0);
        TokensExchanged(s, c, d, t, RunEnd(s, i));
      } else {
        TokensExchanged(s, c, d, t, i + 1);
      }
    } else {
      assert a[i] == c && b[i] == d;
      TokensShifted(s + [c], t, 0);
      TokensShifted(s + [d], t, 0);
    }
  }

  /** Separators are interchangeable: with another one a version is the same, and compares the same
      with every other. */
  lemma Interchangeable(s: string, c: char, d: char, t: string, x: string)
    requires (c == '.' || c == '-' || c == '_') && (d == '.' || d == '-' || d == '_')
    ensures Compare(s + [c] + t, s + [d] + t) == 0
    ensures Compare(x, s + [c] + t) == Compare(x, s + [d] + t)
  {
    hide Lex, Tokens;
    var a, b := s + [c] + t, s + [d] + t;
    NotCurrent(a, |s|);
    NotCurrent(b, |s|);
    assert StartsWithV(a) == StartsWithV(b);
    forall i | i == 0 || (i == 1 && StartsWithV(a)) ensures Tokens(a, i) == Tokens(b, i) {
      TokensExchanged(s, c, d, t, i);
    }
    forall ts: seq<Token> ensures Lex(ts, ts) == 0 {
      LexOpposite(ts, ts);
    }
  }

  lemma NotCurrent(a: string, i: nat)
    requires i < |a| && (Separates(a[i]) || '0' <= a[i] <= '9')
    ensures a != "current"
  {
    var w := "current";
    assert w[0] == 'c' && w[1] == 'u' && w[2] == 'r' && w[3] == 'r' && w[4] == 'e' && w[5] == 'n' && w[6] == 't';
    SeparatesIs(a[i]);
  }

  /** The case of a v in front of both versions does not matter. */
  lemma CaseOfV(a: string, b: string, c: char, d: char)
    requires a != "" && a[0] in "vV" && c in "vV" && d in "vV"
    ensures Compare(a, [c] + b) == Compare(a, [d] + b)
  {
    hide Lex, Tokens;
    BothVIs(a, [c] + b);
    BothVIs(a, [d] + b);
    TokensShifted([c], b, 0);
    TokensShifted([d], b, 0);
    assert "current"[0] == 'c';
    LexOpposite(Tokens(a, 1), Tokens(a, 1));
  }

  // ---------------------------------------------------------------- numbers

  /** A run of digits of which the number is read. */
  lemma {:induction false} RunOfDigits(x: string, i: nat, m: string, ds: seq<int>, t: string, acc: nat)
    requires i <= |x| && x[i..] == m + t && IntegerTexts.Spells(m, ds, 10) && Breaks("0", t)
    ensures RunEnd(x, i) == i + |m|
    ensures Decimal(x, i, acc) == acc * Integers.Pow(10, |ds|) + IntegerTexts.Positional(ds, 10)
    decreases |m|
  {
    if m == "" {
      assert x[i..] == t;
      assert t != "" ==> x[i] == t[0];
    } else {
      assert x[i] == x[i..][0] == m[0];
      assert x[i + 1..] == x[i..][1..] == m[1..] + t;
      var d := ds[0];
      IntegerTexts.LowDigit(m[0], d);
      RunOfDigits(x, i + 1, m[1..], ds[1..], t, 10 * acc + d);
      Horner(acc, d, Integers.Pow(10, |ds| - 1));
    }
  }

  lemma Horner(acc: int, d: int, p: int)
    ensures (10 * acc + d) * p == acc * (10 * p) + d * p
  {
  }

  /** The number read behind s, and the tokens of the rest. */
  lemma NumberBehind(s: string, m: string, ds: seq<int>, t: string)
    requires m != "" && IntegerTexts.Spells(m, ds, 10) && IntegerTexts.Positional(ds, 10) < 0x8000_0000 && Breaks("0", t)
    ensures var x := s + m + t;
      && x == s + (m + t) && |s| < |x| && IsDigit(x[|s|]) && x[|s|] == m[0] && x != "current"
      && RunValue(x, |s|, 0) == IntegerTexts.Positional(ds, 10) && Tokens(x, RunEnd(x, |s|)) == Tokens(t, 0)
  {
    hide RunEnd, RunValue, Decimal, IntegerTexts.Positional, Tokens;
    var x := s + m + t;
    assert x == s + (m + t) && x[|s|..] == m + t && x[|s|] == m[0];
    IntegerTexts.LowDigit(m[0], ds[0]);
    NotCurrent(x, |s|);
    RunOfDigits(x, |s|, m, ds, t, 0);
    RunValueExact(x, |s|, 0);
    TokensShifted(s + m, t, 0);
  }

  /** Behind equal texts the larger number is the newer one; equal numbers, whatever their zeros in
      front, leave the decision to what follows. */
  lemma NumbersDecide(s: string, m: string, ds: seq<int>, t: string, n: string, es: seq<int>, u: string)
    requires '\0' !in s && (s == "" || !('0' <= s[|s| - 1] <= '9'))
    requires m != "" && IntegerTexts.Spells(m, ds, 10) && IntegerTexts.Positional(ds, 10) < 0x8000_0000
    requires n != "" && IntegerTexts.Spells(n, es, 10) && IntegerTexts.Positional(es, 10) < 0x8000_0000
    requires (t == "" || !('0' <= t[0] <= '9')) && (u == "" || !('0' <= u[0] <= '9'))
    ensures IntegerTexts.Positional(ds, 10) > IntegerTexts.Positional(es, 10) ==> Compare(s + m + t, s + n + u) == -1
    ensures IntegerTexts.Positional(ds, 10) < IntegerTexts.Positional(es, 10) ==> Compare(s + m + t, s + n + u) == 1
    ensures IntegerTexts.Positional(ds, 10) == IntegerTexts.Positional(es, 10) ==>
      Compare(s + m + t, s + n + t) == 0 && Compare(s + m + t, s + n + u) == Compare(s + m + t, s + m + u)
  {
    hide Compare, IntegerTexts.Spells, IntegerTexts.Positional;
    NumbersCompared(s, m, ds, t, n, es, u);
    NumbersCompared(s, m, ds, t, n, es, t);
    NumbersCompared(s, m, ds, t, m, ds, u);
    LexOpposite(Tokens(t, 0), Tokens(t, 0));
  }

  lemma NumbersCompared(s: string, m: string, ds: seq<int>, t: string, n: string, es: seq<int>, u: string)
    requires '\0' !in s && (s == "" || !('0' <= s[|s| - 1] <= '9'))
    requires m != "" && IntegerTexts.Spells(m, ds, 10) && IntegerTexts.Positional(ds, 10) < 0x8000_0000
    requires n != "" && IntegerTexts.Spells(n, es, 10) && IntegerTexts.Positional(es, 10) < 0x8000_0000
    requires (t == "" || !('0' <= t[0] <= '9')) && (u == "" || !('0' <= u[0] <= '9'))
    ensures var v, w := IntegerTexts.Positional(ds, 10), IntegerTexts.Positional(es, 10);
      Compare(s + m + t, s + n + u) == if v > w then -1 else if v < w then 1 else Lex(Tokens(t, 0), Tokens(u, 0))
  {
    NumberBehind(s, m, ds, t);
    NumberBehind(s, n, es, u);
    hide Compare, Lex, Tokens, RunEnd, RunValue, IntegerTexts.Spells, IntegerTexts.Positional;
    DigitsCompared(s, m + t, n + u);
  }

  /** Two digit runs behind equal texts. */
  lemma DigitsCompared(s: string, a: string, b: string)
    requires '\0' !in s && Breaks(s, a) && Breaks(s, b) && a != "" && b != "" && IsDigit(a[0]) && IsDigit(b[0])
    requires s + a != "current" && s + b != "current"
    ensures var x, y := s + a, s + b;
      var v, w := RunValue(x, |s|, 0), RunValue(y, |s|, 0);
      Compare(x, y) == if v > w then -1 else if v < w then 1 else Lex(Tokens(x, RunEnd(x, |s|)), Tokens(y, RunEnd(y, |s|)))
  {
    hide Compare, Lex, Tokens, RunEnd, RunValue, Breaks;
    LexCases(s + a, |s|, s + b, |s|);
    assert (s + a)[|s|] == a[0] && (s + b)[|s|] == b[0];
    if a == b {
      SameIsEqual(s + a, s + b, |s|);
    } else {
      RestDecides(s, a, b);
    }
  }

  lemma SameIsEqual(x: string, y: string, i: nat)
    requires x == y
    ensures Compare(x, y) == 0 == Lex(Tokens(x, i), Tokens(y, i))
  {
    LexOpposite(Tokens(x, i), Tokens(x, i));
  }
}
