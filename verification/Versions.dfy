/** Version comparison (ecos/host/libcdl/cdlmisc.cxx, Cdl::compare_versions).

    The two-pointer walk is proved to compare lists of tokens: separators, digit runs, other
    characters.  A negative result means that the first version is the newer one. */
module Versions {
  import opened Common

  /** Reading a C string: the terminator is at the end or at an embedded NUL. */
  predicate Ends(s: string, i: nat) {
    i >= |s| || s[i] == '\0'
  }

  predicate IsDigit(c: char) { '0' <= c <= '9' }

  predicate IsSeparator(c: char) { c == '.' || c == '-' || c == '_' }

  predicate DigitAt(s: string, i: nat) {
    !Ends(s, i) && IsDigit(s[i])
  }

  // ---------------------------------------------------------------- tokens

  datatype Token = Sep | Num(v: int) | Ch(c: char)

  /** The end of the digit run at i. */
  function RunEnd(s: string, i: nat): (j: nat)
    ensures j >= i && (DigitAt(s, i) ==> j > i) && !DigitAt(s, j)
    ensures i <= |s| ==> j <= |s|
    decreases |s| - i
  {
    if DigitAt(s, i) then RunEnd(s, i + 1) else i
  }

  /** The int the digit run at i adds up to, after acc. */
  function RunValue(s: string, i: nat, acc: int): int
    decreases |s| - i
  {
    if DigitAt(s, i) then RunValue(s, i + 1, Wrap32(10 * acc + (s[i] as int - '0' as int))) else acc
  }

  function Tokens(s: string, i: nat): seq<Token>
    decreases |s| - i
  {
    if Ends(s, i) then []
    else if IsDigit(s[i]) then [Num(RunValue(s, i, 0))] + Tokens(s, RunEnd(s, i))
    else if IsSeparator(s[i]) then [Sep] + Tokens(s, i + 1)
    else [Ch(s[i])] + Tokens(s, i + 1)
  }

  /** The number a digit run denotes. */
  function Decimal(s: string, i: nat, acc: nat): nat
    decreases |s| - i
  {
    if DigitAt(s, i) then Decimal(s, i + 1, 10 * acc + (s[i] as int - '0' as int)) else acc
  }

  lemma {:induction false} DecimalGrows(s: string, i: nat, acc: nat)
    ensures Decimal(s, i, acc) >= acc
    decreases |s| - i
  {
    if DigitAt(s, i) {
      DecimalGrows(s, i + 1, 10 * acc + (s[i] as int - '0' as int));
    }
  }

  /** A run that fits an int is compared by the number it denotes. */
  lemma {:induction false} RunValueExact(s: string, i: nat, acc: nat)
    requires Decimal(s, i, acc) < 0x8000_0000
    ensures RunValue(s, i, acc) == Decimal(s, i, acc)
    decreases |s| - i
  {
    if DigitAt(s, i) {
      var next := 10 * acc + (s[i] as int - '0' as int);
      DecimalGrows(s, i + 1, next);
      RunValueExact(s, i + 1, next);
    }
  }

  // ---------------------------------------------------------------- the order on tokens

  /** Above every character code. */
  const TOP := 0x11_0000

  /** Newer tokens have larger keys: a separator beats the end of the string, which beats
      anything else; digit runs sit where their first digit would. */
  function Key(ts: seq<Token>): (int, int) {
    if ts == [] then (TOP, 0)
    else match ts[0]
      case Sep => (TOP + 1, 0)
      case Num(v) => ('0' as int, v)
      case Ch(c) => (c as int, 0)
  }

  predicate Above(k: (int, int), l: (int, int)) {
    k.0 > l.0 || (k.0 == l.0 && k.1 > l.1)
  }

  /** Lexicographic comparison, -1 when the first list is newer. */
  function Lex(t1: seq<Token>, t2: seq<Token>): int
  {
    if Above(Key(t1), Key(t2)) then -1
    else if Above(Key(t2), Key(t1)) then 1
    else if t1 == [] || t2 == [] then 0
    else Lex(t1[1..], t2[1..])
  }

  /** Tokens of a string: no character token is a digit or a separator. */
  ghost predicate Proper(ts: seq<Token>) {
    forall i :: 0 <= i < |ts| ==> ts[i].Ch? ==> !IsDigit(ts[i].c) && !IsSeparator(ts[i].c)
  }

  lemma {:induction false} TokensProper(s: string, i: nat)
    ensures Proper(Tokens(s, i))
    decreases |s| - i
  {
    if !Ends(s, i) {
      TokensProper(s, if IsDigit(s[i]) then RunEnd(s, i) else i + 1);
    }
  }

  lemma {:induction false} LexOpposite(x: seq<Token>, y: seq<Token>)
    ensures Lex(x, y) == -Lex(y, x)
  {
    if x != [] && y != [] {
      LexOpposite(x[1..], y[1..]);
    }
  }

  lemma {:induction false} LexTransitive(x: seq<Token>, y: seq<Token>, z: seq<Token>)
    requires Lex(x, y) <= 0 && Lex(y, z) <= 0
    ensures Lex(x, z) <= 0
    ensures Lex(x, y) < 0 || Lex(y, z) < 0 ==> Lex(x, z) < 0
    decreases |x|
  {
    if Key(x) == Key(y) == Key(z) && x != [] && y != [] && z != [] {
      LexTransitive(x[1..], y[1..], z[1..]);
    }
  }

  /** Nothing but equal token lists compares equal. */
  lemma {:induction false} LexZero(x: seq<Token>, y: seq<Token>)
    requires Proper(x) && Proper(y)
    ensures Lex(x, y) == 0 <==> x == y
  {
    LexOpposite(x, y);
    if Key(x) == Key(y) && x != [] && y != [] {
      assert x[0] == y[0];
      LexZero(x[1..], y[1..]);
      assert x == [x[0]] + x[1..] && y == [y[0]] + y[1..];
    }
  }

  // ---------------------------------------------------------------- compare_versions

  predicate StartsWithV(s: string) {
    s != [] && (s[0] == 'v' || s[0] == 'V')
  }

  function Compare(a: string, b: string): int {
    if a == b then 0
    else if a == "current" then -1
    else if b == "current" then 1
    else
      var skip := if StartsWithV(a) && StartsWithV(b) then 1 else 0;
      Lex(Tokens(a, skip), Tokens(b, skip))
  }

  /** The digit run at i, added up as an int, and its end. */
  method ReadDigits(s: string, i: nat) returns (num: int, j: nat)
    requires DigitAt(s, i)
    ensures num == RunValue(s, i, 0) && j == RunEnd(s, i)
  {
    num, j := 0, i;
    while DigitAt(s, j)
      invariant RunValue(s, j, num) == RunValue(s, i, 0) && RunEnd(s, j) == RunEnd(s, i)
      decreases |s| - j
    {
      num := Wrap32(10 * num + (s[j] as int - '0' as int));
      j := j + 1;
    }
  }

  /** The comparison decided by the characters at two places, or put off to later ones. */
  lemma LexCases(s: string, i: nat, t: string, j: nat)
    requires i <= |s| && j <= |t|
    ensures !Ends(s, i) ==> i < |s|
    ensures !Ends(t, j) ==> j < |t|
    ensures Lex(Tokens(s, i), Tokens(t, j)) ==
      if Ends(s, i) && Ends(t, j) then 0
      else if Ends(s, i) then if IsSeparator(t[j]) then 1 else -1
      else if Ends(t, j) then if IsSeparator(s[i]) then -1 else 1
      else if IsDigit(s[i]) && IsDigit(t[j]) then
        var m, n := RunValue(s, i, 0), RunValue(t, j, 0);
        if m < n then 1 else if m > n then -1 else Lex(Tokens(s, RunEnd(s, i)), Tokens(t, RunEnd(t, j)))
      else if s[i] == t[j] || (IsSeparator(s[i]) && IsSeparator(t[j])) then Lex(Tokens(s, i + 1), Tokens(t, j + 1))
      else if IsSeparator(s[i]) then -1
      else if IsSeparator(t[j]) then 1
      else if s[i] < t[j] then 1 else -1
  {
    TokensStep(s, i);
    TokensStep(t, j);
    hide Tokens, RunValue, RunEnd;
  }

  lemma AtDigit(s: string, i: nat)
    requires i <= |s|
    ensures !Ends(s, i) && IsDigit(s[i]) ==> DigitAt(s, i) && i < RunEnd(s, i) <= |s|
  {
    TokensStep(s, i);
    hide Tokens, RunEnd;
  }

  lemma TokensStep(s: string, i: nat)
    requires i <= |s|
    ensures Ends(s, i) ==> Tokens(s, i) == []
    ensures !Ends(s, i) ==> i < |s| && Tokens(s, i) != []
    ensures !Ends(s, i) && IsDigit(s[i]) ==>
      && DigitAt(s, i) && i < RunEnd(s, i) <= |s|
      && Tokens(s, i)[0] == Num(RunValue(s, i, 0)) && Tokens(s, i)[1..] == Tokens(s, RunEnd(s, i))
    ensures !Ends(s, i) && !IsDigit(s[i]) ==>
      Tokens(s, i)[0] == (if IsSeparator(s[i]) then Sep else Ch(s[i])) && Tokens(s, i)[1..] == Tokens(s, i + 1)
    ensures !Ends(s, i) && IsSeparator(s[i]) ==> !IsDigit(s[i])
  {
  }

  /** The two-pointer loop of compare_versions. */
  method CompareVersions(arg1: string, arg2: string) returns (r: int)
    ensures r == Compare(arg1, arg2)
  {
    if arg1 == arg2 {
      return 0;
    }
    if arg1 == "current" {
      return -1;
    }
    if arg2 == "current" {
      return 1;
    }
    var p1: nat, p2: nat := 0, 0;
    if !Ends(arg1, 0) && (arg1[0] == 'v' || arg1[0] == 'V') && !Ends(arg2, 0) && (arg2[0] == 'v' || arg2[0] == 'V') {
      p1, p2 := 1, 1;
    }
    ghost var goal := Lex(Tokens(arg1, p1), Tokens(arg2, p2));
    assert goal == Compare(arg1, arg2);
    hide *;
    while true
      invariant p1 <= |arg1| && p2 <= |arg2|
      invariant goal == Lex(Tokens(arg1, p1), Tokens(arg2, p2))
      decreases |arg1| - p1
    {
      LexCases(arg1, p1, arg2, p2);
      AtDigit(arg1, p1);
      AtDigit(arg2, p2);
      if Ends(arg1, p1) && Ends(arg2, p2) {
        return 0;
      }
      if Ends(arg1, p1) {
        return if IsSeparator(arg2[p2]) then 1 else -1;
      }
      if Ends(arg2, p2) {
        return if IsSeparator(arg1[p1]) then -1 else 1;
      }
      if IsDigit(arg1[p1]) && IsDigit(arg2[p2]) {
        var num1, num2;
        num1, p1 := ReadDigits(arg1, p1);
        num2, p2 := ReadDigits(arg2, p2);
        if num1 < num2 {
          return 1;
        } else if num1 > num2 {
          return -1;
        }
        continue;
      }
      if arg1[p1] == arg2[p2] || (IsSeparator(arg1[p1]) && IsSeparator(arg2[p2])) {
        p1, p2 := p1 + 1, p2 + 1;
        continue;
      }
      if IsSeparator(arg1[p1]) {
        return -1;
      } else if IsSeparator(arg2[p2]) {
        return 1;
      }
      return if arg1[p1] < arg2[p2] then 1 else -1;
    }
  }

  // ---------------------------------------------------------------- the order on versions

  /** a is at least as new as b. */
  predicate NotOlder(a: string, b: string) {
    Compare(a, b) <= 0
  }

  /** Swapping the arguments always reverses the answer; in particular the order is total. */
  lemma CompareOpposite(a: string, b: string)
    ensures Compare(a, b) == -Compare(b, a)
    ensures NotOlder(a, b) || NotOlder(b, a)
  {
    var skip := if StartsWithV(a) && StartsWithV(b) then 1 else 0;
    LexOpposite(Tokens(a, skip), Tokens(b, skip));
  }

  /** Two versions are the same exactly if their token lists are, up to the case of a leading v;
      "current" is the same as nothing else, and newer than everything else. */
  lemma CompareZero(a: string, b: string)
    ensures Compare(a, b) == 0 <==>
      a == b || (a != "current" && b != "current" &&
                 var skip := if StartsWithV(a) && StartsWithV(b) then 1 else 0; Tokens(a, skip) == Tokens(b, skip))
    ensures a != "current" ==> Compare("current", a) == -1
  {
    var skip := if StartsWithV(a) && StartsWithV(b) then 1 else 0;
    TokensProper(a, skip);
    TokensProper(b, skip);
    LexZero(Tokens(a, skip), Tokens(b, skip));
  }

  /** z sorts between a version with a small v and one with a capital V. */
  predicate Between(x: string, z: string, y: string) {
    && x != [] && x[0] == 'v' && y != [] && y[0] == 'V'
    && z != "current" && z != [] && 'V' < z[0] < 'v' && z[0] != '_'
  }

  /** The triples on which the comparison goes round in a circle. */
  predicate Circular(a: string, b: string, c: string) {
    || (Between(a, b, c) && Compare(c, a) < 0)
    || (Between(c, a, b) && Compare(b, c) <= 0)
    || (Between(b, c, a) && Compare(a, b) <= 0)
  }

  /** The unstripped order, with "current" on top. */
  function Plain(a: string, b: string): int {
    if a == "current" then (if b == "current" then 0 else -1)
    else if b == "current" then 1
    else Lex(Tokens(a, 0), Tokens(b, 0))
  }

  lemma PlainTransitive(a: string, b: string, c: string)
    requires Plain(a, b) <= 0 && Plain(b, c) <= 0
    ensures Plain(a, c) <= 0
    ensures Plain(a, b) < 0 || Plain(b, c) < 0 ==> Plain(a, c) < 0
  {
    if a != "current" && b != "current" && c != "current" {
      LexTransitive(Tokens(a, 0), Tokens(b, 0), Tokens(c, 0));
    }
  }

  /** Unless the strings start with a v in different case, stripping makes no difference. */
  lemma CompareIsPlain(a: string, b: string)
    requires !(StartsWithV(a) && StartsWithV(b) && a[0] != b[0])
    ensures Compare(a, b) == Plain(a, b)
  {
    if a == b {
      LexOpposite(Tokens(a, 0), Tokens(a, 0));
    } else if StartsWithV(a) && StartsWithV(b) {
      assert Tokens(a, 0) == [Ch(a[0])] + Tokens(a, 1) && Tokens(b, 0) == [Ch(b[0])] + Tokens(b, 1);
      assert Tokens(a, 0)[1..] == Tokens(a, 1) && Tokens(b, 0)[1..] == Tokens(b, 1);
    }
  }

  /** A string that does not start with v lies above both letters, below both, or between. */
  lemma AgainstV(x: string, z: string, y: string)
    requires x != [] && x[0] == 'v' && y != [] && y[0] == 'V' && !StartsWithV(z)
    ensures if Between(x, z, y) then Compare(x, z) == -1 && Compare(z, y) == -1
            else Compare(x, z) == Compare(y, z) != 0
  {
    CompareOpposite(x, z);
    CompareOpposite(y, z);
    CompareOpposite(z, y);
    assert Tokens(x, 0) == [Ch('v')] + Tokens(x, 1) && Tokens(y, 0) == [Ch('V')] + Tokens(y, 1);
  }

  /** Being at least as new is transitive on a triple exactly if it is not circular, that is,
      unless it mixes "v...", "V..." and a string between the two letters the wrong way round. */
  lemma TransitiveExactly(a: string, b: string, c: string)
    ensures (NotOlder(a, b) && NotOlder(b, c) ==> NotOlder(a, c)) <==> !Circular(a, b, c)
  {
    var va, vb, vc := StartsWithV(a), StartsWithV(b), StartsWithV(c);
    if va && vb && vc {
      AllV(a, b, c);
    } else if va && vb && a[0] != b[0] {
      MixedCase(a, b, c);
    } else if vb && vc && b[0] != c[0] {
      MixedCase(b, c, a);
    } else if va && vc && a[0] != c[0] {
      MixedCase(a, c, b);
    } else {
      CompareIsPlain(a, b);
      CompareIsPlain(b, c);
      CompareIsPlain(a, c);
      if NotOlder(a, b) && NotOlder(b, c) {
        PlainTransitive(a, b, c);
      }
    }
  }

  /** Whatever follows the first characters, three versions are in order unless one of them
      lies between a small and a capital v. */
  lemma TransitiveByFirstCharacters(a: string, b: string, c: string)
    requires !Between(a, b, c) && !Between(b, c, a) && !Between(c, a, b)
    requires !Between(c, b, a) && !Between(a, c, b) && !Between(b, a, c)
    ensures NotOlder(a, b) && NotOlder(b, c) ==> NotOlder(a, c)
    ensures NotOlder(a, b) && NotOlder(b, c) && (Compare(a, b) < 0 || Compare(b, c) < 0) ==> Compare(a, c) < 0
  {
    hide Compare, Between;
    TransitiveExactly(a, b, c);
    TransitiveExactly(b, c, a);
    TransitiveExactly(c, a, b);
    CompareOpposite(a, b);
    CompareOpposite(b, c);
    CompareOpposite(a, c);
  }

  lemma AllV(a: string, b: string, c: string)
    requires StartsWithV(a) && StartsWithV(b) && StartsWithV(c)
    ensures NotOlder(a, b) && NotOlder(b, c) ==> NotOlder(a, c)
  {
    LexOpposite(Tokens(a, 1), Tokens(a, 1));
    LexOpposite(Tokens(b, 1), Tokens(b, 1));
    LexOpposite(Tokens(c, 1), Tokens(c, 1));
    if NotOlder(a, b) && NotOlder(b, c) {
      LexTransitive(Tokens(a, 1), Tokens(b, 1), Tokens(c, 1));
    }
  }

  /** Everything there is to know about a v, a V and a third string. */
  lemma MixedCase(p: string, q: string, z: string)
    requires StartsWithV(p) && StartsWithV(q) && p[0] != q[0] && !StartsWithV(z)
    ensures var x, y := if p[0] == 'v' then p else q, if p[0] == 'v' then q else p;
      && (if Between(x, z, y) then Compare(x, z) == -1 && Compare(z, y) == -1 else Compare(x, z) == Compare(y, z) != 0)
    ensures Compare(p, q) == -Compare(q, p) && Compare(p, z) == -Compare(z, p) && Compare(q, z) == -Compare(z, q)
  {
    AgainstV(if p[0] == 'v' then p else q, z, if p[0] == 'v' then q else p);
    CompareOpposite(p, q);
    CompareOpposite(p, z);
    CompareOpposite(q, z);
  }

  /** On versions that all start with a v, or of which none does, newest-first is an order. */
  lemma TransitiveWhenUniform(a: string, b: string, c: string)
    requires StartsWithV(a) == StartsWithV(b) == StartsWithV(c)
    requires NotOlder(a, b) && NotOlder(b, c)
    ensures NotOlder(a, c) && (Compare(a, b) < 0 || Compare(b, c) < 0 ==> Compare(a, c) < 0)
  {
    TransitiveExactly(a, b, c);
    CompareOpposite(a, c);
    CompareOpposite(b, c);
    CompareOpposite(a, b);
    if Compare(a, c) == 0 {
      // then c is at least as new as a, which would make all three equal
      TransitiveExactly(b, c, a);
      TransitiveExactly(c, a, b);
    }
  }

  /** v1 is newer than Z and Z is newer than V2, but V2 is newer than v1. */
  lemma CircularExample()
    ensures Compare("v1", "Z") == -1 && Compare("Z", "V2") == -1 && Compare("V2", "v1") == -1
  {
    assert Tokens("v1", 2) == [] && Tokens("v1", 1) == [Num(1)] && Tokens("V2", 2) == [] && Tokens("V2", 1) == [Num(2)];
    AgainstV("v1", "Z", "V2");
  }
}
