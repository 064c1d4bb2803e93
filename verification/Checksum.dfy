/** The Internet checksum (ecos/ecosap/shell/ping.c, inet_cksum), after sections 1 and 2 of RFC
    1071. */
module Checksum {
  type Byte = x: int | 0 <= x < 0x100
  type Word = x: int | 0 <= x < 0x1_0000

  /** The accumulator has 32 bits. */
  const WRAP := 0x1_0000_0000
  const M := 0xFFFF

  // ---------------------------------------------------------------- sums of words

  /** Two bytes loaded as a word, in the byte order of the machine. */
  function Load(first: Byte, second: Byte, big: bool): Word {
    if big then 0x100 * first + second else first + 0x100 * second
  }

  /** The words of a packet, an odd byte at the end padded with zero. */
  function Words(b: seq<Byte>, big: bool): seq<Word> {
    if b == [] then [] else if |b| == 1 then [Load(b[0], 0, big)] else [Load(b[0], b[1], big)] + Words(b[2..], big)
  }

  /** Each word has two bytes of the packet, and an odd one is the first of a last word. */
  lemma {:induction false} WordsAre(b: seq<Byte>, big: bool, k: nat)
    requires 2 * k < |b|
    ensures k < |Words(b, big)|
    ensures
      var first: int, second: int := b[2 * k], if 2 * k + 1 < |b| then b[2 * k + 1] else 0;
      Words(b, big)[k] == if big then 256 * first + second else first + 256 * second
    decreases |b|
  {
    if k > 0 {
      WordsAre(b[2..], big, k - 1);
    }
  }

  function Total(w: seq<Word>): nat {
    if w == [] then 0 else Total(w[..|w| - 1]) + w[|w| - 1]
  }

  /** Addition with the carry added back at the low end. */
  function Plus(x: Word, y: Word): Word {
    if x + y <= M then x + y else x + y - M
  }

  /** The ones' complement sum of section 1 of RFC 1071. */
  function OnesSum(w: seq<Word>): Word {
    if w == [] then 0 else Plus(OnesSum(w[..|w| - 1]), w[|w| - 1])
  }

  /** The number from 1 to 65535 that differs from t by a multiple of 65535; 0 for 0. */
  function Residue(t: nat): Word {
    if t == 0 then 0 else (t - 1) % M + 1
  }

  lemma ResidueIs(t: nat, r: nat, k: int)
    requires t == r + M * k && 1 <= r <= M && t > 0
    ensures Residue(t) == r
  {
    assert (t - 1) == (r - 1) + M * k;
  }

  lemma ResidueSplit(t: nat) returns (k: nat)
    ensures t == Residue(t) + M * k && (t > 0 ==> Residue(t) > 0)
  {
    k := if t == 0 then 0 else (t - 1) / M;
  }

  lemma {:induction false} OnesSumIsResidue(w: seq<Word>)
    ensures OnesSum(w) == Residue(Total(w))
  {
    if w != [] {
      var front, last := w[..|w| - 1], w[|w| - 1];
      OnesSumIsResidue(front);
      var k := ResidueSplit(Total(front));
      var sum := Residue(Total(front)) + last;
      if Total(front) + last > 0 {
        if sum <= M {
          ResidueIs(Total(w), sum, k);
        } else {
          ResidueIs(Total(w), sum - M, k + 1);
        }
      }
    }
  }

  // ---------------------------------------------------------------- the 32-bit accumulator

  lemma {:induction false} TotalBound(w: seq<Word>)
    ensures Total(w) <= |w| * M
  {
    if w != [] {
      TotalBound(w[..|w| - 1]);
    }
  }

  /** With at most 65537 words the accumulator cannot wrap round. */
  lemma NoOverflow(w: seq<Word>)
    requires |w| <= 65537
    ensures Total(w) < WRAP
  {
    TotalBound(w);
  }

  /** The last steps of inet_cksum: two folds, complement, truncation to 16 bits. */
  function Finish(sum: int): Word
    requires 0 <= sum < WRAP
  {
    var once := sum / 0x1_0000 + sum % 0x1_0000;
    var twice := (once + once / 0x1_0000) % WRAP;
    (WRAP - 1 - twice) % 0x1_0000
  }

  /** Two folds suffice for any value of the accumulator. */
  lemma TwoFolds(sum: int)
    requires 0 <= sum < WRAP
    ensures Finish(sum) == M - Residue(sum)
  {
    var high, low := sum / 0x1_0000, sum % 0x1_0000;
    var once := high + low;
    assert sum == once + M * high;
    if sum > 0 {
      if once <= M {
        ResidueIs(sum, once, high);
      } else {
        ResidueIs(sum, once - M, high + 1);
      }
    }
  }

  /** What inet_cksum returns. */
  function Checksum(b: seq<Byte>, big: bool): Word {
    Finish(Total(Words(b, big)) % WRAP)
  }

  lemma {:induction false} WordCount(b: seq<Byte>, big: bool)
    ensures |Words(b, big)| == (|b| + 1) / 2
  {
    if |b| >= 2 {
      WordCount(b[2..], big);
    }
  }

  /** As long as nothing wraps round, that is the complement of the ones' complement sum. */
  lemma ChecksumIsComplement(b: seq<Byte>, big: bool)
    requires |b| <= 131074
    ensures Total(Words(b, big)) < WRAP && Checksum(b, big) == M - OnesSum(Words(b, big))
    ensures Checksum(b, big) == M - Residue(Total(Words(b, big)))
  {
    hide Words, Total, OnesSum, Residue, Finish;
    var w := Words(b, big);
    WordCount(b, big);
    NoOverflow(w);
    assert Total(w) % WRAP == Total(w);
    TwoFolds(Total(w));
    OnesSumIsResidue(w);
  }

  /** Losing up to 65534 carries out of 32 bits changes the residue, each carry being worth one. */
  lemma LostCarries(t: nat)
    requires t < WRAP * M
    ensures Residue(t % WRAP) == Residue(t) <==> t < WRAP
  {
    var q, r := t / WRAP, t % WRAP;
    assert WRAP == 1 + M * 65537;
    if q > 0 && r > 0 && Residue(r) == Residue(t) {
      var i := ResidueSplit(r);
      var j := ResidueSplit(t);
      assert q == M * (j - i - 65537 * q);
      NotMultiple(q, j - i - 65537 * q);
    }
  }

  lemma NotMultiple(q: int, k: int)
    requires 0 < q < M
    ensures q != M * k
  {
  }

  /** For every length that fits an int, the result is the complement of the ones' complement
      sum if and only if the sum of the words fits the accumulator. */
  lemma RightExactly(b: seq<Byte>, big: bool)
    requires |b| < 0x8000_0000
    ensures Checksum(b, big) == M - OnesSum(Words(b, big)) <==> Total(Words(b, big)) < WRAP
  {
    hide Words, Total, OnesSum, Residue, Finish;
    var w := Words(b, big);
    WordCount(b, big);
    TotalBound(w);
    assert |w| <= 0x4000_0000;
    TwoFolds(Total(w) % WRAP);
    OnesSumIsResidue(w);
    LostCarries(Total(w));
  }

  lemma {:induction false} TotalFirst(x: Word, w: seq<Word>)
    ensures Total([x] + w) == x + Total(w)
  {
    if w == [] {
      assert [x] + w == [x] && [x][..0] == [];
    } else {
      assert ([x] + w)[..|w|] == [x] + w[..|w| - 1];
      TotalFirst(x, w[..|w| - 1]);
    }
  }

  /** A packet of n bytes with all bits set. */
  function Filled(n: nat): seq<Byte> {
    seq(n, _ => 0xFF)
  }

  lemma {:induction false} FilledTotal(n: nat, big: bool)
    ensures Total(Words(Filled(2 * n), big)) == n * M
  {
    if n > 0 {
      FilledTotal(n - 1, big);
      assert Filled(2 * n)[2..] == Filled(2 * (n - 1));
      TotalFirst(M, Words(Filled(2 * (n - 1)), big));
    }
  }

  /** One word more than can be added safely, and the checksum is wrong. */
  lemma OverflowExample(big: bool)
    ensures |Filled(131076)| == 131076 && Checksum(Filled(131076), big) != M - OnesSum(Words(Filled(131076), big))
  {
    hide Checksum, OnesSum, Words, Total;
    FilledTotal(65538, big);
    RightExactly(Filled(131076), big);
  }

  // ---------------------------------------------------------------- a packet with its checksum

  /** The bytes of a word stored in the byte order of the machine. */
  function Stored(x: Word, big: bool): (b: seq<Byte>)
    ensures |b| == 2 && Load(b[0], b[1], big) == x
  {
    if big then [x / 0x100, x % 0x100] else [x % 0x100, x / 0x100]
  }

  /** b with a word put in at a place. */
  function With(b: seq<Byte>, at: nat, x: Word, big: bool): (r: seq<Byte>)
    requires at + 2 <= |b|
    ensures |r| == |b|
  {
    b[at := Stored(x, big)[0]][at + 1 := Stored(x, big)[1]]
  }

  lemma TotalStep(b: seq<Byte>, big: bool)
    requires |b| >= 2
    ensures Total(Words(b, big)) == Load(b[0], b[1], big) + Total(Words(b[2..], big))
  {
    TotalFirst(Load(b[0], b[1], big), Words(b[2..], big));
  }

  /** A word put in at an even place in exchange for zero adds itself to the total. */
  lemma {:induction false} TotalWith(b: seq<Byte>, at: nat, x: Word, big: bool)
    requires at % 2 == 0 && at + 2 <= |b|
    ensures Total(Words(With(b, at, x, big), big)) == Total(Words(With(b, at, 0, big), big)) + x
    decreases at
  {
    var c, z := With(b, at, x, big), With(b, at, 0, big);
    TotalStep(c, big);
    TotalStep(z, big);
    hide Words, Total;
    if at == 0 {
      assert c[2..] == b[2..] == z[2..];
    } else {
      assert c[2..] == With(b[2..], at - 2, x, big);
      assert z[2..] == With(b[2..], at - 2, 0, big);
      TotalWith(b[2..], at - 2, x, big);
    }
  }

  lemma ResidueFull(t: nat)
    ensures Residue(t) == M <==> t > 0 && t % M == 0
  {
  }

  /** A packet whose checksum field holds x checks, that is, its own checksum is zero, exactly if
      x is the checksum of the packet with a zero field, up to a multiple of 65535. */
  lemma ChecksExactly(b: seq<Byte>, at: nat, x: Word, big: bool)
    requires at % 2 == 0 && at + 2 <= |b| <= 131074
    ensures var ck := Checksum(With(b, at, 0, big), big); var t := Total(Words(With(b, at, 0, big), big));
      Checksum(With(b, at, x, big), big) == 0 <==> (x - ck) % M == 0 && t + x > 0
  {
    hide Words, Total, Checksum, With, OnesSum, Residue;
    var t := Total(Words(With(b, at, 0, big), big));
    TotalWith(b, at, x, big);
    ChecksumIsComplement(With(b, at, x, big), big);
    ChecksumIsComplement(With(b, at, 0, big), big);
    ResidueFull(t + x);
    var k := ResidueSplit(t);
    SameRemainder(t, x, Residue(t), k);
  }

  lemma SameRemainder(t: nat, x: nat, r: nat, k: nat)
    requires t == r + M * k
    ensures (t + x) % M == 0 <==> (x - (M - r)) % M == 0
  {
    var q := (x - (M - r)) / M;
    assert t + x == (x - (M - r)) + M * (k + 1);
    Shifted(x - (M - r), k + 1);
  }

  lemma Shifted(a: int, k: int)
    ensures (a + M * k) % M == a % M
  {
  }

  /** The checksum inserted, the packet checks. */
  lemma InsertedChecks(b: seq<Byte>, at: nat, big: bool)
    requires at % 2 == 0 && at + 2 <= |b| <= 131074
    ensures Checksum(With(b, at, Checksum(With(b, at, 0, big), big), big), big) == 0
  {
    hide Words, Total, Checksum, With, OnesSum, Residue;
    var ck := Checksum(With(b, at, 0, big), big);
    ChecksExactly(b, at, ck, big);
    ChecksumIsComplement(With(b, at, 0, big), big);
    var k := ResidueSplit(Total(Words(With(b, at, 0, big), big)));
  }

  // ---------------------------------------------------------------- byte order

  function Swapped(x: Word): Word {
    x % 0x100 * 0x100 + x / 0x100
  }

  lemma {:induction false} SwappedTotal(b: seq<Byte>, big: bool) returns (k: int)
    ensures Total(Words(b, !big)) == 0x100 * Total(Words(b, big)) + M * k
    ensures Total(Words(b, !big)) == 0 <==> Total(Words(b, big)) == 0
  {
    if b == [] {
      k := 0;
    } else if |b| == 1 {
      assert Words(b, big)[..0] == [] && Words(b, !big)[..0] == [];
      var first: int := b[0];
      k := if big then -first else 0;
    } else {
      TotalStep(b, big);
      TotalStep(b, !big);
      k := SwappedTotal(b[2..], big);
      k := k - (if big then b[0] else b[1]);
    }
  }

  lemma SwappedResidue(t: nat, u: nat, k: int)
    requires u == 0x100 * t + M * k && (u == 0 <==> t == 0)
    ensures Residue(u) == Swapped(Residue(t))
  {
    if t > 0 {
      var q := ResidueSplit(t);
      var x: int := Residue(t);
      assert 0x100 * x == Swapped(x) + M * (x / 0x100);
      ResidueIs(u, Swapped(x), k + 0x100 * q + x / 0x100);
    }
  }

  lemma SwappedComplement(x: Word)
    ensures Swapped(M - x) == M - Swapped(x)
  {
    var high, low := x / 0x100, x % 0x100;
    assert M - x == (0xFF - high) * 0x100 + (0xFF - low);
  }

  /** A machine of the other byte order gets the byte-swapped checksum. */
  lemma OtherByteOrder(b: seq<Byte>, big: bool)
    requires |b| <= 131074
    ensures Checksum(b, !big) == Swapped(Checksum(b, big))
  {
    hide Words, Total, Checksum, OnesSum, Residue, Swapped;
    ChecksumIsComplement(b, big);
    ChecksumIsComplement(b, !big);
    var k := SwappedTotal(b, big);
    SwappedResidue(Total(Words(b, big)), Total(Words(b, !big)), k);
    SwappedComplement(Residue(Total(Words(b, big))));
  }

  // ---------------------------------------------------------------- the code

  /** The loop of inet_cksum, over whole words. */
  method SumWords(buf: array<Byte>, len: nat, big: bool) returns (sum: nat, w: nat)
    requires len <= buf.Length
    ensures w <= len < w + 2 && sum < WRAP
    ensures (sum + Total(Words(buf[w..len], big))) % WRAP == Total(Words(buf[..len], big)) % WRAP
  {
    hide Words, Total, Load;
    var nleft := len;
    w, sum := 0, 0;
    assert buf[0..len] == buf[..len];
    while nleft > 1
      invariant 0 <= nleft && w == len - nleft && 0 <= sum < WRAP
      invariant (sum + Total(Words(buf[w..len], big))) % WRAP == Total(Words(buf[..len], big)) % WRAP
    {
      TotalStep(buf[w..len], big);
      assert buf[w..len][2..] == buf[w + 2..len];
      AddWrapped(sum, Load(buf[w], buf[w + 1], big), Total(Words(buf[w + 2..len], big)));
      sum := (sum + Load(buf[w], buf[w + 1], big)) % WRAP;
      w := w + 2;
      nleft := nleft - 2;
    }
  }

  /** inet_cksum of the first len bytes of a buffer */
  method InetChecksum(buf: array<Byte>, len: nat, big: bool) returns (answer: Word)
    requires len <= buf.Length
    ensures answer == Checksum(buf[..len], big)
  {
    hide Words, Total, Load;
    var sum, w := SumWords(buf, len, big);
    NoWords(buf[w..len], big);
    if w < len {
      AddWrapped(sum, Load(buf[w], 0, big), 0);
      sum := (sum + Load(buf[w], 0, big)) % WRAP;
    }
    assert sum == Total(Words(buf[..len], big)) % WRAP;
    sum := sum / 0x1_0000 + sum % 0x1_0000;
    sum := (sum + sum / 0x1_0000) % WRAP;
    answer := (WRAP - 1 - sum) % 0x1_0000;
  }

  lemma AddWrapped(sum: nat, x: nat, rest: nat)
    ensures ((sum + x) % WRAP + rest) % WRAP == (sum + (x + rest)) % WRAP
  {
  }

  /** The totals of no bytes and of one; of all of them, seen from the start. */
  lemma NoWords(b: seq<Byte>, big: bool)
    ensures b == [] ==> Total(Words(b, big)) == 0
    ensures |b| == 1 ==> Total(Words(b, big)) == Load(b[0], 0, big)
  {
    if |b| == 1 {
      assert Words(b, big)[..0] == [];
    }
  }

  method PutWord(buf: array<Byte>, at: nat, x: Word, big: bool)
    requires at + 2 <= buf.Length
    modifies buf
    ensures buf[..] == With(old(buf[..]), at, x, big)
  {
    var b := Stored(x, big);
    buf[at], buf[at + 1] := b[0], b[1];
  }

  /** How ping_host finishes a packet: the field zeroed, the checksum taken and put in. */
  method PutChecksum(buf: array<Byte>, at: nat, len: nat, big: bool)
    requires at % 2 == 0 && at + 2 <= len <= buf.Length && len <= 131074
    modifies buf
    ensures buf[..at] == old(buf[..at]) && buf[at + 2..] == old(buf[at + 2..])
    ensures Checksum(buf[..len], big) == 0
  {
    hide Checksum;
    ghost var b := buf[..len];
    PutWord(buf, at, 0, big);
    assert buf[..len] == With(b, at, 0, big);
    var ck := InetChecksum(buf, len, big);
    PutWord(buf, at, ck, big);
    assert buf[..len] == With(b, at, ck, big);
    InsertedChecks(b, at, big);
  }
}
