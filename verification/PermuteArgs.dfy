/** The in-place exchange of two adjacent blocks of an argument vector
    (ecos/ecosap/shell/getopt_long.c, gcd and permute_args).

    The block of non-options has m*g entries and the block of options p*g, where g is
    the greatest common divisor of the two lengths.  The code walks g cycles of m+p
    entries each.  Everything below is about one such cycle, numbered by t = offset / g:
    the entry at t belongs at t - m or t + p, and multiplying by an inverse u of p
    modulo m+p turns that walk into counting 0, 1, 2, ... */
module PermuteArgs {

  // ---------------------------------------------------------------- gcd

  ghost predicate Divides(d: int, x: int)
    requires d > 0
  {
    x % d == 0
  }

  function Gcd(a: nat, b: nat): (g: nat)
    requires a + b > 0
    ensures g > 0
    decreases b
  {
    if b == 0 then a else Gcd(b, a % b)
  }

  method ComputeGcd(a0: nat, b0: nat) returns (g: nat)
    requires b0 > 0
    ensures g == Gcd(a0, b0)
  {
    var a, b := a0, b0;
    var c := a % b;
    while c != 0
      invariant b > 0 && c == a % b
      invariant Gcd(a, b) == Gcd(a0, b0)
      decreases c
    {
      a := b;
      b := c;
      c := a % b;
    }
    return b;
  }

  lemma MulMonotone(d: int, a: int, b: int)
    requires d > 0
    ensures a < b ==> d * a + d <= d * b
    ensures a <= b ==> d * a <= d * b
  {
    if a < b {
      var k := b - a - 1;
      assert d * k >= 0;
      assert d * b == d * a + d * k + d;
    }
  }

  lemma MulDistributes(d: int, a: int, b: int)
    ensures d * (a + b) == d * a + d * b && d * (a - b) == d * a - d * b
  {
  }

  lemma DivModSplit(x: int, d: int)
    requires d > 0
    ensures x == d * (x / d) + x % d
  {
  }

  lemma DivModUnique(x: int, q: int, r: int, d: int)
    requires d > 0 && 0 <= r < d && x == d * q + r
    ensures x / d == q && x % d == r
  {
    MulMonotone(d, q, x / d);
    MulMonotone(d, x / d, q);
  }

  lemma MultipleMod(k: int, d: int)
    requires d > 0
    ensures (k * d) % d == 0 && (k * d) / d == k
  {
    DivModUnique(k * d, k, 0, d);
  }

  /** Gcd divides both arguments and is an integer combination of them. */
  lemma {:induction false} Bezout(a: nat, b: nat) returns (x: int, y: int)
    requires a + b > 0
    ensures a % Gcd(a, b) == 0 && b % Gcd(a, b) == 0
    ensures x * a + y * b == Gcd(a, b)
    decreases b
  {
    var g := Gcd(a, b);
    if b == 0 {
      x, y := 1, 0;
      MultipleMod(1, a);
    } else {
      var q, r := a / b, a % b;
      var x', y' := Bezout(b, r);
      x, y := y', x' - q * y';
      BezoutStep(a, b, q, r, g, x', y');
    }
  }

  lemma BezoutStep(a: int, b: int, q: int, r: int, g: int, x: int, y: int)
    requires g > 0 && a == b * q + r && b % g == 0 && r % g == 0 && x * b + y * r == g
    ensures y * a + (x - q * y) * b == g
    ensures a % g == 0
  {
    assert y * a == y * (b * q) + y * r;
    assert (x - q * y) * b == x * b - y * (b * q);
    var kb, kr := b / g, r / g;
    MulAssoc(g, kb, q);
    assert a == (kb * q + kr) * g;
    MultipleMod(kb * q + kr, g);
  }

  lemma CommonFactor(a: int, b: int, ka: int, kb: int, d: int, x: int, y: int)
    requires a == d * ka && b == d * kb
    ensures x * a + y * b == (x * ka + y * kb) * d
  {
    MulAssoc(x, ka, d);
    MulAssoc(y, kb, d);
  }

  lemma MulAssoc(x: int, y: int, z: int)
    ensures (x * y) * z == x * (y * z)
  {
  }

  /** Gcd is the greatest common divisor: every common divisor divides it. */
  lemma GcdIsGreatest(a: nat, b: nat, d: int)
    requires a + b > 0 && d > 0 && Divides(d, a) && Divides(d, b)
    ensures Divides(Gcd(a, b), a) && Divides(Gcd(a, b), b)
    ensures Divides(d, Gcd(a, b))
  {
    var x, y := Bezout(a, b);
    var ka, kb := a / d, b / d;
    CommonFactor(a, b, ka, kb, d, x, y);
    MultipleMod(x * ka + y * kb, d);
  }

  // ---------------------------------------------------------------- one cycle

  /** The shape of an exchange: g cycles, m and p the block lengths divided by g,
      u an inverse of p modulo m + p. */
  datatype Shape = Shape(g: int, m: int, p: int, u: int, v: int)
  {
    ghost predicate Valid() {
      g > 0 && m > 0 && p > 0 && u * p == 1 + v * (m + p)
    }
    ghost function Len(): int { m + p }
    /** Where the entry numbered t belongs. */
    ghost function Next(t: int): int {
      if t >= m then t - m else t + p
    }
    /** How many steps from the start of the cycle (entry m) lead to entry t. */
    ghost function Index(t: int): (j: int)
      requires Valid()
      ensures 0 <= j < Len()
    {
      (u * (t - m)) % (m + p)
    }
  }

  lemma MakeShape(nnonopts: nat, nopts: nat) returns (s: Shape)
    requires nnonopts > 0 && nopts > 0
    ensures s.Valid() && s.g == Gcd(nnonopts, nopts)
    ensures nnonopts == s.g * s.m && nopts == s.g * s.p
    ensures (nnonopts + nopts) / s.g == s.m + s.p
  {
    var x, y := Bezout(nnonopts, nopts);
    var g := Gcd(nnonopts, nopts);
    var m := Quotient(nnonopts, g);
    var p := Quotient(nopts, g);
    s := Shape(g, m, p, y - x, -x);
    InverseFromBezout(g, m, p, x, y);
    MultipleMod(m + p, g);
  }

  lemma Quotient(x: int, d: int) returns (q: int)
    requires d > 0 && x % d == 0
    ensures x == d * q
  {
    q := x / d;
  }

  lemma InverseFromBezout(g: int, m: int, p: int, x: int, y: int)
    requires g > 0 && g * m > 0 && g * p > 0 && x * (g * m) + y * (g * p) == g
    ensures m > 0 && p > 0 && (y - x) * p == 1 + (-x) * (m + p)
    ensures g * m + g * p == (m + p) * g
  {
    MulMonotone(g, m, 0);
    MulMonotone(g, p, 0);
    assert x * (g * m) == g * (x * m) && y * (g * p) == g * (y * p);
    CancelLeft(g, x * m + y * p, 1);
  }

  lemma CancelLeft(d: int, a: int, b: int)
    requires d > 0 && d * a == d * b
    ensures a == b
  {
    MulMonotone(d, a, b);
    MulMonotone(d, b, a);
  }

  /** One step of the walk adds one to the index, and the last index is followed by 0. */
  lemma IndexStep(s: Shape, t: int)
    requires s.Valid()
    ensures s.Index(s.Next(t)) == if s.Index(t) + 1 == s.Len() then 0 else s.Index(t) + 1
  {
    NextProduct(s.u, s.v, s.m, s.p, t - s.m);
    if t >= s.m {
      ModOfSuccessor(s.u * (t - s.m - s.m), s.u * (t - s.m), s.v - s.u, s.m + s.p);
    } else {
      ModOfSuccessor(s.u * (t - s.m + s.p), s.u * (t - s.m), s.v, s.m + s.p);
      assert s.Next(t) - s.m == t - s.m + s.p;
    }
  }

  lemma NextProduct(u: int, v: int, m: int, p: int, d: int)
    requires u * p == 1 + v * (m + p)
    ensures u * (d - m) == u * d + 1 + (v - u) * (m + p)
    ensures u * (d + p) == u * d + 1 + v * (m + p)
  {
  }

  lemma ModOfSuccessor(w: int, z: int, k: int, d: int)
    requires d > 0 && w == z + 1 + k * d
    ensures w % d == if z % d + 1 == d then 0 else z % d + 1
  {
    var a, r := z / d, z % d;
    DivModSplit(z, d);
    if r + 1 == d {
      assert d * (a + k + 1) == d * a + k * d + d;
      DivModUnique(w, a + k + 1, 0, d);
    } else {
      assert d * (a + k) == d * a + k * d;
      DivModUnique(w, a + k, r + 1, d);
    }
  }

  /** No two entries of the cycle share an index. */
  lemma IndexInjective(s: Shape, t: int, t': int)
    requires s.Valid() && 0 <= t < s.Len() && 0 <= t' < s.Len()
    requires s.Index(t) == s.Index(t')
    ensures t == t'
  {
    var k := SameRemainder(s.u * (t - s.m), s.u * (t' - s.m), s.m + s.p);
    assert s.u * (t - t') == k * (s.m + s.p);
    CancelFactor(s.u, s.v, s.p, s.m + s.p, t - t', k);
    SmallMultiple(t - t', k * s.p - s.v * (t - t'), s.m + s.p);
  }

  lemma SameRemainder(z: int, z': int, d: int) returns (k: int)
    requires d > 0 && z % d == z' % d
    ensures z - z' == k * d
  {
    DivModSplit(z, d);
    DivModSplit(z', d);
    k := z / d - z' / d;
  }

  lemma CancelFactor(u: int, v: int, p: int, len: int, d: int, k: int)
    requires u * p == 1 + v * len && u * d == k * len
    ensures d == (k * p - v * d) * len
  {
    assert (u * p) * d == p * (k * len) by { MulAssoc(p, u, d); }
    assert (1 + v * len) * d == d + (v * d) * len by { MulAssoc(v, d, len); MulAssoc(v, len, d); }
    MulAssoc(k, p, len);
  }

  lemma SmallMultiple(d: int, k: int, L: int)
    requires L > 0 && -L < d < L && d == k * L
    ensures d == 0
  {
    MulMonotone(L, 0, k);
    MulMonotone(L, k, 0);
  }

  lemma IndexOfStart(s: Shape)
    requires s.Valid()
    ensures s.Index(s.m) == 0
  {
    assert s.u * 0 == 0;
  }

  // ---------------------------------------------------------------- the whole range

  /** Where permute_args sends the entry at offset q, for blocks of nnonopts and nopts. */
  function Destination(nnonopts: nat, nopts: nat, q: int): int
  {
    if q >= nnonopts then q - nnonopts else q + nopts
  }

  /** An offset splits into a cycle number and an entry number, and a step stays in its cycle. */
  lemma DestinationInCycle(s: Shape, n: int, k: int, q: int)
    requires s.Valid() && n == s.g * s.m && k == s.g * s.p && 0 <= q < n + k
    ensures 0 <= q / s.g < s.m + s.p
    ensures var q' := if q >= n then q - n else q + k;
            0 <= q' < n + k && q' % s.g == q % s.g && q' / s.g == s.Next(q / s.g)
  {
    var g, t, i := s.g, q / s.g, q % s.g;
    DivModSplit(q, g);
    EntryRange(g, s.m, s.p, t, i);
    if t >= s.m {
      MulDistributes(g, t, s.m);
      DivModUnique(q - n, t - s.m, i, g);
    } else {
      MulDistributes(g, t, s.p);
      DivModUnique(q + k, t + s.p, i, g);
    }
  }

  lemma EntryRange(g: int, m: int, p: int, t: int, i: int)
    requires g > 0 && 0 <= i < g && 0 <= g * t + i < g * m + g * p
    ensures 0 <= t < m + p && (g * t + i >= g * m <==> t >= m)
  {
    MulDistributes(g, m, p);
    MulMonotone(g, t, 0);
    MulMonotone(g, m + p, t);
    MulMonotone(g, m, t);
    MulMonotone(g, t, m);
  }

  /** The cycles numbered: for every offset, the cycle it lies on and its step on that cycle. */
  datatype Numbering = Numbering(cycles: nat, length: nat, cycle: seq<int>, step: seq<int>)
  {
    ghost predicate Valid(nnonopts: nat, nopts: nat) {
      && 0 < cycles <= nopts && 0 < length
      && |cycle| == |step| == nnonopts + nopts
      && (forall q :: 0 <= q < |cycle| ==> 0 <= cycle[q] < cycles)
      && (forall q :: 0 <= q < |step| ==> 0 <= step[q] < length)
      // the walk of cycle i starts at offset nnonopts + i
      && (forall q :: nnonopts <= q < nnonopts + cycles ==> cycle[q] == q - nnonopts && step[q] == 0)
      // each move stays on the cycle and advances by one step
      && (forall q {:trigger Destination(nnonopts, nopts, q)} :: 0 <= q < |cycle| ==>
            && cycle[Destination(nnonopts, nopts, q)] == cycle[q]
            && step[Destination(nnonopts, nopts, q)] == if step[q] + 1 == length then 0 else step[q] + 1)
      // cycle and step determine the offset
      && (forall q, q' :: 0 <= q < |cycle| && 0 <= q' < |cycle| && cycle[q] == cycle[q'] && step[q] == step[q'] ==> q == q')
    }
  }

  lemma MakeNumbering(nnonopts: nat, nopts: nat) returns (c: Numbering)
    requires nnonopts > 0 && nopts > 0
    ensures c.Valid(nnonopts, nopts)
    ensures c.cycles == Gcd(nnonopts, nopts) && c.length == (nnonopts + nopts) / c.cycles
  {
    var s := MakeShape(nnonopts, nopts);
    MulMonotone(s.g, 1, s.p);
    var n := nnonopts + nopts;
    c := Numbering(s.g, s.m + s.p, seq(n, q => q % s.g), seq(n, q => s.Index(q / s.g)));
    assert forall q :: 0 <= q < n ==> c.cycle[q] == q % s.g && c.step[q] == s.Index(q / s.g);
    forall q | 0 <= q < n
      ensures c.cycle[Destination(nnonopts, nopts, q)] == c.cycle[q]
      ensures c.step[Destination(nnonopts, nopts, q)] == if c.step[q] + 1 == c.length then 0 else c.step[q] + 1
    {
      DestinationInCycle(s, nnonopts, nopts, q);
      IndexStep(s, q / s.g);
    }
    forall q | nnonopts <= q < nnonopts + s.g
      ensures c.cycle[q] == q - nnonopts && c.step[q] == 0
    {
      DivModUnique(q, s.m, q - nnonopts, s.g);
      IndexOfStart(s);
    }
    forall q, q' | 0 <= q < n && 0 <= q' < n && c.cycle[q] == c.cycle[q'] && c.step[q] == c.step[q']
      ensures q == q'
    {
      SameNumbers(s, nnonopts, nopts, q, q');
    }
  }

  lemma SameNumbers(s: Shape, n: int, k: int, q: int, q': int)
    requires s.Valid() && n == s.g * s.m && k == s.g * s.p && 0 <= q < n + k && 0 <= q' < n + k
    requires q % s.g == q' % s.g && s.Index(q / s.g) == s.Index(q' / s.g)
    ensures q == q'
  {
    DestinationInCycle(s, n, k, q);
    DestinationInCycle(s, n, k, q');
    IndexInjective(s, q / s.g, q' / s.g);
    DivModSplit(q, s.g);
    DivModSplit(q', s.g);
  }

  /** The position reached from the start of cycle i after j steps. */
  function Orbit(nnonopts: nat, nopts: nat, i: nat, j: nat): int
  {
    if j == 0 then nnonopts + i else Destination(nnonopts, nopts, Orbit(nnonopts, nopts, i, j - 1))
  }

  lemma {:induction false} OrbitNumbers(nnonopts: nat, nopts: nat, c: Numbering, i: nat, j: nat)
    requires c.Valid(nnonopts, nopts) && i < c.cycles && j < c.length
    ensures var q := Orbit(nnonopts, nopts, i, j);
      0 <= q < nnonopts + nopts && c.cycle[q] == i && c.step[q] == j
  {
    if j > 0 {
      OrbitNumbers(nnonopts, nopts, c, i, j - 1);
    }
  }

  /** The gcd-many cycles of length (nnonopts + nopts) / gcd cover the range: every offset is
      reached, in exactly one cycle and at exactly one step of it. */
  lemma CyclesPartitionRange(nnonopts: nat, nopts: nat, q: nat)
    requires nnonopts > 0 && nopts > 0 && q < nnonopts + nopts
    ensures var g := Gcd(nnonopts, nopts);
            exists i: nat, j: nat :: i < g && j < (nnonopts + nopts) / g && Orbit(nnonopts, nopts, i, j) == q
    ensures var g := Gcd(nnonopts, nopts);
            forall i: nat, j: nat, i': nat, j': nat ::
              i < g && j < (nnonopts + nopts) / g && Orbit(nnonopts, nopts, i, j) == q &&
              i' < g && j' < (nnonopts + nopts) / g && Orbit(nnonopts, nopts, i', j') == q
              ==> i == i' && j == j'
  {
    var c := MakeNumbering(nnonopts, nopts);
    OrbitNumbers(nnonopts, nopts, c, c.cycle[q], c.step[q]);
    forall i: nat, j: nat | i < c.cycles && j < c.length && Orbit(nnonopts, nopts, i, j) == q
      ensures i == c.cycle[q] && j == c.step[q]
    {
      OrbitNumbers(nnonopts, nopts, c, i, j);
    }
  }

  // ---------------------------------------------------------------- the loop

  /** What an exchange leaves: the block [middle..end) moved in front of [start..middle). */
  function Exchanged<T>(s: seq<T>, start: nat, middle: nat, end: nat): (r: seq<T>)
    requires start <= middle <= end <= |s|
    ensures |r| == |s|
  {
    s[..start] + s[middle..end] + s[start..middle] + s[end..]
  }

  /** The range of an exchange, with the numbering of its cycles. */
  datatype Task<T> = Task(was: seq<T>, start: nat, nnonopts: nat, nopts: nat, c: Numbering)
  {
    ghost predicate Valid() {
      c.Valid(nnonopts, nopts) && start + nnonopts + nopts <= |was|
    }

    ghost function Middle(): nat { start + nnonopts }
    ghost function End(): nat { start + nnonopts + nopts }

    ghost function Goal(): seq<T>
      requires Valid()
    {
      Exchanged(was, start, Middle(), End())
    }

    /** Cycles below i are in place, the others untouched. */
    ghost predicate Between(a: seq<T>, i: nat)
      requires Valid()
    {
      |a| == |was| && forall x :: 0 <= x < |a| ==>
        a[x] == if start <= x < End() && c.cycle[x - start] < i then Goal()[x] else was[x]
    }

    /** Cycle i has been walked for j steps and stands at pos; its start holds the entry from pos. */
    ghost predicate Inside(a: seq<T>, i: nat, j: nat, pos: nat)
      requires Valid()
    {
      && |a| == |was| && start <= pos < End()
      && c.cycle[pos - start] == i && c.step[pos - start] == (if j == c.length then 0 else j)
      && forall x :: 0 <= x < |a| ==> a[x] == Slot(i, j, pos, x)
    }

    ghost function Slot(i: nat, j: nat, pos: nat, x: nat): T
      requires Valid() && start <= pos < End() && x < |was|
    {
      if !(start <= x < End()) || c.cycle[x - start] > i then was[x]
      else if c.cycle[x - start] < i || j == c.length then Goal()[x]
      else if c.step[x - start] == 0 then was[pos]
      else if c.step[x - start] <= j then Goal()[x]
      else was[x]
    }

    lemma Enter(a: seq<T>, i: nat)
      requires Valid() && i < c.cycles && Between(a, i)
      ensures Middle() + i < End() && Inside(a, i, 0, Middle() + i)
    {
      var s := Middle() + i;
      assert c.step[s - start] == 0 && c.cycle[s - start] == i;
      forall x | 0 <= x < |a| ensures a[x] == Slot(i, 0, s, x) {
        assert start <= x < End() && c.cycle[x - start] == i && c.step[x - start] == 0 ==> x == s;
      }
    }

    /** One swap of the inner loop. */
    lemma Advance(a: seq<T>, i: nat, j: nat, pos: nat, pos': nat, s: nat) returns (a': seq<T>)
      requires Valid() && i < c.cycles && j < c.length && Inside(a, i, j, pos)
      requires pos' == start + Destination(nnonopts, nopts, pos - start) && s == Middle() + i
      ensures pos' < |a| && s < |a| && a' == a[pos' := a[s]][s := a[pos']]
      ensures Inside(a', i, j + 1, pos')
    {
      assert c.step[s - start] == 0 && c.cycle[s - start] == i;
      assert a[s] == was[pos] == Goal()[pos'];
      a' := a[pos' := a[s]][s := a[pos']];
      forall x | 0 <= x < |a| ensures a'[x] == Slot(i, j + 1, pos', x) {
        AdvanceAt(a, i, j, pos, pos', s, x);
      }
    }

    lemma AdvanceAt(a: seq<T>, i: nat, j: nat, pos: nat, pos': nat, s: nat, x: nat)
      requires Valid() && i < c.cycles && j < c.length && Inside(a, i, j, pos) && x < |a|
      requires pos' == start + Destination(nnonopts, nopts, pos - start) && s == Middle() + i && pos' < |a| && s < |a|
      requires c.step[s - start] == 0 && c.cycle[s - start] == i && a[s] == was[pos] == Goal()[pos']
      ensures a[pos' := a[s]][s := a[pos']][x] == Slot(i, j + 1, pos', x)
    {
      if start <= x < End() && c.cycle[x - start] == i {
        assert c.step[x - start] == 0 ==> x == s;
        assert c.step[x - start] == c.step[pos' - start] ==> x == pos';
      }
    }

    lemma Leave(a: seq<T>, i: nat, pos: nat)
      requires Valid() && i < c.cycles && Inside(a, i, c.length, pos)
      ensures Between(a, i + 1)
    {
    }

    lemma Finish(a: seq<T>, middle: nat, end: nat)
      requires Valid() && Between(a, c.cycles) && middle == Middle() && end == End()
      ensures a == Exchanged(was, start, middle, end)
    {
    }
  }

  lemma MakeTask<T>(was: seq<T>, start: nat, nnonopts: nat, nopts: nat, ncycle: nat, cyclelen: nat) returns (t: Task<T>)
    requires nnonopts > 0 && nopts > 0 && start + nnonopts + nopts <= |was|
    requires ncycle == Gcd(nnonopts, nopts) && cyclelen == (nnonopts + nopts) / ncycle
    ensures t == Task(was, start, nnonopts, nopts, t.c) && t.Valid()
    ensures t.c.cycles == ncycle && t.c.length == cyclelen && t.Between(was, 0)
  {
    var c := MakeNumbering(nnonopts, nopts);
    t := Task(was, start, nnonopts, nopts, c);
  }

  /** permute_args: exchanges nargv[start..middle) with nargv[middle..end), keeping the order
      inside each block and everything outside the range. */
  method Permute<T>(start: nat, middle: nat, end: nat, nargv: array<T>)
    requires start < middle < end <= nargv.Length
    modifies nargv
    ensures nargv[..] == Exchanged(old(nargv[..]), start, middle, end)
  {
    hide Task.Between, Task.Inside, Numbering.Valid, Exchanged;
    var nnonopts := middle - start;
    var nopts := end - middle;
    var ncycle := ComputeGcd(nnonopts, nopts);
    var cyclelen := (end - start) / ncycle;
    ghost var a := nargv[..];
    ghost var t := MakeTask(a, start, nnonopts, nopts, ncycle, cyclelen);
    for i := 0 to ncycle
      invariant nargv[..] == a && t.Between(a, i)
    {
      var cstart := middle + i;
      var pos := cstart;
      t.Enter(a, i);
      for j := 0 to cyclelen
        invariant nargv[..] == a && start <= pos < end && t.Inside(a, i, j, pos)
      {
        ghost var last := pos;
        if pos >= middle {
          pos := pos - nnonopts;
        } else {
          pos := pos + nopts;
        }
        var swap := nargv[pos];
        nargv[pos] := nargv[cstart];
        nargv[cstart] := swap;
        a := t.Advance(a, i, j, last, pos, cstart);
      }
      t.Leave(a, i, pos);
    }
    t.Finish(a, middle, end);
  }
}
