/** How the argument vector is laid out in the middle of a permuting scan
    (ecos/ecosap/shell/getopt_long.c, getopt_internal).

    A run starts at position first.  Every position from there up to the scan position has
    been consumed or skipped, as the mask taken says.  nonopt_start and nonopt_end (-1 when
    unset) bound the block of skipped arguments inside argv[first..pos]. */
module ArgvLayout {
  import opened PermuteArgs

  // ---------------------------------------------------------------- stable partition

  /** The entries of s whose mark is want, in order. */
  function Pick<T>(s: seq<T>, mask: seq<bool>, want: bool): (r: seq<T>)
    requires |s| == |mask|
    ensures |r| <= |s|
  {
    if s == [] then []
    else
      var n := |s| - 1;
      Pick(s[..n], mask[..n], want) + if mask[n] == want then [s[n]] else []
  }

  /** With nothing skipped everything is in its place. */
  lemma {:induction false} PickAll<T>(s: seq<T>, m: seq<bool>)
    requires |s| == |m| && Pick(s, m, false) == []
    ensures Pick(s, m, true) == s
  {
    if s != [] {
      var n := |s| - 1;
      PickAll(s[..n], m[..n]);
      assert s[..n] + [s[n]] == s;
    }
  }

  /** The consumed and the skipped entries together are all the entries. */
  lemma {:induction false} PickSizes<T>(s: seq<T>, m: seq<bool>)
    requires |s| == |m|
    ensures |Pick(s, m, true)| + |Pick(s, m, false)| == |s|
    ensures multiset(Pick(s, m, true)) + multiset(Pick(s, m, false)) == multiset(s)
  {
    if s != [] {
      var n := |s| - 1;
      PickSizes(s[..n], m[..n]);
      MultisetSplit(s[..n], s[n], Pick(s[..n], m[..n], true), Pick(s[..n], m[..n], false), m[n]);
      assert s == s[..n] + [s[n]];
    }
  }

  lemma MultisetSplit<T>(s: seq<T>, x: T, p: seq<T>, q: seq<T>, b: bool)
    requires multiset(p) + multiset(q) == multiset(s)
    ensures multiset(p + if b then [x] else []) + multiset(q + if b then [] else [x]) == multiset(s + [x])
  {
    if b {
      assert q + [] == q;
    } else {
      assert p + [] == p;
    }
  }

  /** The last entry extended by one more. */
  lemma PickNext<T>(orig: seq<T>, first: nat, pos: nat, taken: seq<bool>, b: bool, want: bool)
    requires first <= pos < |orig| && |taken| == pos - first
    ensures Pick(orig[first..pos + 1], taken + [b], want) ==
            Pick(orig[first..pos], taken, want) + if b == want then [orig[pos]] else []
  {
    var s := orig[first..pos + 1];
    assert s[..|s| - 1] == orig[first..pos];
    assert (taken + [b])[..|s| - 1] == taken;
  }

  // ---------------------------------------------------------------- the layout

  /** The arrangement of a during a run over orig; the element at pos has not been passed. */
  ghost predicate Layout<T>(a: seq<T>, orig: seq<T>, first: nat, taken: seq<bool>, pos: nat, nonoptStart: int, nonoptEnd: int)
  {
    && |a| == |orig| && first <= pos <= |a| && |taken| == pos - first
    && a[..first] == orig[..first] && a[pos..] == orig[pos..]
    && var opts, nonopts := Pick(orig[first..pos], taken, true), Pick(orig[first..pos], taken, false);
       if nonoptStart == -1 then
         nonoptEnd == -1 && a[first..pos] == opts && nonopts == []
       else if nonoptEnd == -1 then
         first <= nonoptStart < pos && a[first..nonoptStart] == opts && a[nonoptStart..pos] == nonopts
       else
         && first <= nonoptStart < nonoptEnd <= pos && a[nonoptStart..nonoptEnd] == nonopts
         && a[first..nonoptStart] + a[nonoptEnd..pos] == opts
  }

  /** The arrangement a finished run leaves, and the index it stops at. */
  ghost predicate Partitioned<T>(a: seq<T>, orig: seq<T>, first: nat, taken: seq<bool>, pos: nat, optind: int)
  {
    && first <= pos <= |orig| && |taken| == pos - first
    && a == orig[..first] + Pick(orig[first..pos], taken, true) + Pick(orig[first..pos], taken, false) + orig[pos..]
    && optind == first + |Pick(orig[first..pos], taken, true)|
  }

  /** Skipping the first non-option, or another one right behind it. */
  lemma LayoutSkip<T>(a: seq<T>, orig: seq<T>, first: nat, taken: seq<bool>, pos: nat, nonoptStart: int)
    requires Layout(a, orig, first, taken, pos, nonoptStart, -1) && pos < |a|
    ensures Layout(a, orig, first, taken + [false], pos + 1, if nonoptStart == -1 then pos else nonoptStart, -1)
  {
    PickNext(orig, first, pos, taken, false, true);
    PickNext(orig, first, pos, taken, false, false);
    assert a[pos] == a[pos..][0] == orig[pos..][0] == orig[pos];
    assert a[pos + 1..] == a[pos..][1..] == orig[pos..][1..] == orig[pos + 1..];
    if nonoptStart != -1 {
      assert a[nonoptStart..pos + 1] == a[nonoptStart..pos] + [a[pos]];
    }
  }

  /** Moving the options met since behind the skipped block in front of it. */
  lemma LayoutExchange<T>(a: seq<T>, orig: seq<T>, first: nat, taken: seq<bool>, pos: nat, s: nat, e: nat)
    requires Layout(a, orig, first, taken, pos, s, e) && e < pos
    ensures s < e < pos <= |a|
    ensures Layout(Exchanged(a, s, e, pos), orig, first, taken, pos, pos - (e - s), -1)
    ensures Exchanged(a, s, e, pos)[pos..] == a[pos..]
  {
    var b, k := Exchanged(a, s, e, pos), pos - (e - s);
    assert b[..first] == a[..first];
    assert b[pos..] == a[pos..];
    assert b[first..k] == a[first..s] + a[e..pos];
    assert b[k..pos] == a[s..e];
  }

  /** The first option after a skipped block marks the end of the block. */
  lemma LayoutMarkEnd<T>(a: seq<T>, orig: seq<T>, first: nat, taken: seq<bool>, pos: nat, s: int)
    requires Layout(a, orig, first, taken, pos, s, -1) && s != -1
    ensures Layout(a, orig, first, taken, pos, s, pos)
  {
    assert a[pos..pos] == [];
    assert a[first..s] + [] == a[first..s];
  }

  /** Consuming n elements. */
  lemma {:induction false} LayoutTake<T>(a: seq<T>, orig: seq<T>, first: nat, taken: seq<bool>, pos: nat, s: int, e: int, n: nat)
    requires Layout(a, orig, first, taken, pos, s, e) && pos + n <= |a| && (s == -1 || e != -1)
    ensures Layout(a, orig, first, taken + seq(n, _ => true), pos + n, s, e)
    decreases n
  {
    hide Pick;
    if n == 0 {
      assert taken + seq(n, _ => true) == taken;
    } else {
      PickNext(orig, first, pos, taken, true, true);
      PickNext(orig, first, pos, taken, true, false);
      assert a[pos] == a[pos..][0] == orig[pos..][0] == orig[pos];
      assert a[pos + 1..] == a[pos..][1..] == orig[pos..][1..] == orig[pos + 1..];
      if s == -1 {
        assert a[first..pos + 1] == a[first..pos] + [a[pos]];
      } else {
        assert a[e..pos + 1] == a[e..pos] + [a[pos]];
      }
      LayoutTake(a, orig, first, taken + [true], pos + 1, s, e, n - 1);
      assert taken + [true] + seq(n - 1, _ => true) == taken + seq(n, _ => true);
    }
  }

  lemma SplitFour<T>(a: seq<T>, i: nat, j: nat, k: nat)
    requires i <= j <= k <= |a|
    ensures a == a[..i] + a[i..j] + a[j..k] + a[k..]
  {
  }

  /** With no options behind the skipped block, the run may stop: optind goes to the block. */
  lemma LayoutFinish<T>(a: seq<T>, orig: seq<T>, first: nat, taken: seq<bool>, pos: nat, s: int)
    requires Layout(a, orig, first, taken, pos, s, -1)
    ensures Partitioned(a, orig, first, taken, pos, if s == -1 then pos else s)
  {
    hide Pick;
    var k := if s == -1 then pos else s;
    var opts, nonopts := Pick(orig[first..pos], taken, true), Pick(orig[first..pos], taken, false);
    assert a[first..k] == opts && a[k..pos] == nonopts;
    SplitFour(a, first, k, pos);
  }

  /** Without a skipped block nothing has been moved. */
  lemma LayoutUnmoved<T>(a: seq<T>, orig: seq<T>, first: nat, taken: seq<bool>, pos: nat, nonoptEnd: int)
    requires Layout(a, orig, first, taken, pos, -1, nonoptEnd)
    ensures a == orig
  {
    PickAll(orig[first..pos], taken);
    assert a == a[..first] + a[first..pos] + a[pos..];
    assert orig == orig[..first] + orig[first..pos] + orig[pos..];
  }
}
