/** Trees given by their parent links alone: a map from each node to its parent, with no entry
    for a node that has none. */
module ParentMap {

  import opened Common

  /** The node k levels above n. */
  function Climb<N>(up: map<N, N>, n: N, k: nat): Option<N> {
    if k == 0 then Some(n) else if n in up then Climb(up, up[n], k - 1) else None
  }

  /** a is an ancestor of n. */
  ghost predicate Below<N>(up: map<N, N>, n: N, a: N) {
    exists k: nat :: k > 0 && Climb(up, n, k) == Some(a)
  }

  /** n lies on a cycle of parent links. */
  ghost predicate OnCycle<N>(up: map<N, N>, n: N) {
    Below(up, n, n)
  }

  /** A witness that there are no cycles: every node is deeper than its parent. */
  ghost predicate Ranked<N>(up: map<N, N>, depth: map<N, nat>) {
    forall n :: n in up ==> n in depth && up[n] in depth && depth[up[n]] < depth[n]
  }

  lemma BelowStep<N>(up: map<N, N>, n: N, a: N)
    ensures Below(up, n, a) <==> n in up && (up[n] == a || Below(up, up[n], a))
  {
    if Below(up, n, a) {
      var k: nat :| k > 0 && Climb(up, n, k) == Some(a);
      assert Climb(up, up[n], k - 1) == Some(a);
      if k == 1 {
        assert Climb(up, up[n], 0) == Some(up[n]);
      }
    }
    if n in up {
      if up[n] == a {
        assert Climb(up, up[n], 0) == Some(a);
        assert Climb(up, n, 1) == Some(a);
      }
      if Below(up, up[n], a) {
        var k: nat :| k > 0 && Climb(up, up[n], k) == Some(a);
        assert Climb(up, n, k + 1) == Some(a);
      }
    }
  }

  lemma {:induction false} ClimbTwice<N>(up: map<N, N>, n: N, j: nat, k: nat)
    ensures Climb(up, n, j + k) == match Climb(up, n, j) case None => None case Some(m) => Climb(up, m, k)
    decreases j
  {
    if j > 0 && n in up {
      ClimbTwice(up, up[n], j - 1, k);
    }
  }

  lemma BelowTransitive<N>(up: map<N, N>, n: N, m: N, a: N)
    requires Below(up, n, m) && Below(up, m, a)
    ensures Below(up, n, a)
  {
    var j: nat :| j > 0 && Climb(up, n, j) == Some(m);
    var k: nat :| k > 0 && Climb(up, m, k) == Some(a);
    ClimbTwice(up, n, j, k);
    assert Climb(up, n, j + k) == Some(a);
  }

  /** The last link of a path down to n starts at a child of a. */
  lemma {:induction false} BelowThroughChild<N>(up: map<N, N>, n: N, a: N, k: nat) returns (c: N)
    requires k > 0 && Climb(up, n, k) == Some(a)
    ensures c in up && up[c] == a && (c == n || Below(up, n, c))
    decreases k
  {
    if k == 1 {
      assert Climb(up, up[n], 0) == Some(up[n]);
      c := n;
    } else {
      c := BelowThroughChild(up, up[n], a, k - 1);
      BelowStep(up, n, c);
    }
  }

  /** Ranked links have no cycle. */
  lemma {:induction false} ClimbDecreases<N>(up: map<N, N>, depth: map<N, nat>, n: N, k: nat)
    requires Ranked(up, depth) && n in depth
    ensures Climb(up, n, k).Some? ==>
      var m := Climb(up, n, k).value; m in depth && depth[m] + k <= depth[n]
    decreases k
  {
    if k > 0 && n in up {
      ClimbDecreases(up, depth, up[n], k - 1);
    }
  }

  lemma BelowIsDeeper<N>(up: map<N, N>, depth: map<N, nat>, n: N, a: N)
    requires Ranked(up, depth) && n in depth && Below(up, n, a)
    ensures a in depth && depth[a] < depth[n]
  {
    var k: nat :| k > 0 && Climb(up, n, k) == Some(a);
    ClimbDecreases(up, depth, n, k);
  }

  lemma RankedIsAcyclic<N>(up: map<N, N>, depth: map<N, nat>, n: N)
    requires Ranked(up, depth)
    ensures !OnCycle(up, n)
  {
    if OnCycle(up, n) {
      BelowStep(up, n, n);
      BelowIsDeeper(up, depth, n, n);
    }
  }

  // ---------------------------------------------------------------- moving a subtree

  /** s hung below d. */
  function Moved<N>(up: map<N, N>, s: N, d: N): map<N, N> {
    up[s := d]
  }

  /** The links down to s are the same before and after. */
  lemma {:induction false} ClimbInside<N>(up: map<N, N>, s: N, d: N, n: N, k: nat)
    requires Climb(up, n, k) == Some(s)
    ensures n == s || Below(Moved(up, s, d), n, s)
    decreases k
  {
    if n != s && k > 0 {
      ClimbInside(up, s, d, up[n], k - 1);
      BelowStep(Moved(up, s, d), n, s);
    }
  }

  /** A subtree taken along: the depths below s grow, the others stay. */
  lemma MoveRanked<N>(up: map<N, N>, depth: map<N, nat>, s: N, d: N) returns (depth': map<N, nat>)
    requires Ranked(up, depth) && s in depth && d in depth && d != s && !Below(up, d, s)
    ensures Ranked(Moved(up, s, d), depth') && depth'.Keys == depth.Keys
    ensures forall n :: n in depth ==> depth[n] <= depth'[n] <= depth[n] + depth[d] + 1
  {
    var k := depth[d] + 1;
    depth' := map n | n in depth :: if n == s || Below(up, n, s) then depth[n] + k else depth[n];
    var up' := Moved(up, s, d);
    forall n | n in up'
      ensures n in depth' && up'[n] in depth' && depth'[up'[n]] < depth'[n]
    {
      if n != s {
        BelowStep(up, n, s);
      }
    }
  }

  /** Hanging s below d closes a cycle exactly if d is s itself or one of its descendants. */
  lemma MoveClosesCycle<N>(up: map<N, N>, depth: map<N, nat>, s: N, d: N)
    requires Ranked(up, depth) && s in depth && d in depth
    ensures (exists n :: n in Moved(up, s, d) && OnCycle(Moved(up, s, d), n)) <==> d == s || Below(up, d, s)
  {
    var up' := Moved(up, s, d);
    if d == s || Below(up, d, s) {
      BelowStep(up', s, s);
      if d != s {
        var k: nat :| k > 0 && Climb(up, d, k) == Some(s);
        ClimbInside(up, s, d, d, k);
      }
      assert s in up' && OnCycle(up', s);
    } else {
      var depth' := MoveRanked(up, depth, s, d);
      forall n | n in up' ensures !OnCycle(up', n) {
        RankedIsAcyclic(up', depth', n);
      }
    }
  }

  /** Cutting links keeps a ranking. */
  lemma CutRanked<N>(up: map<N, N>, depth: map<N, nat>, cut: set<N>)
    requires Ranked(up, depth)
    ensures Ranked(up - cut, depth)
  {
  }
}
