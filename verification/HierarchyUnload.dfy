/** How a loadable leaves the hierarchy for good (ecos/host/libcdl/base.cxx): its nodes are
    re-parented, removed from the toplevel, and at last deleted in the reverse of the order in
    which they were created. */
module HierarchyUnload {
  import opened Common
  import opened ParentMap
  import opened NodeLists
  import opened HierarchyView
  import opened HierarchyLaws

  // ---------------------------------------------------------------- the Unloading updates

  /** The Unloading updates of the first i nodes of s, the nodes owned by l: those with a parent
      property go below l, and l itself below the toplevel. */
  ghost function Unloaded(v: View, l: Node, parented: set<Node>, s: seq<Node>, i: nat): View
    requires i <= |s|
  {
    if i == 0 then v else
    var w := Unloaded(v, l, parented, s, i - 1);
    if s[i - 1] !in parented then w else w.Move(s[i - 1], if s[i - 1].kind == Loadable then w.root else l, -1)
  }

  /** Where the parent of n is once it has been dealt with. */
  ghost function Rehung(v: View, l: Node, parented: set<Node>, s: seq<Node>, n: Node): Node
    requires n in v.up
  {
    if n !in s || n !in parented then v.up[n] else if n.kind == Loadable then v.root else l
  }

  /** A loadable owns itself first; without a parent property it is still where it was put. */
  ghost predicate Unloadable(v: View, l: Node, parented: set<Node>) {
    && l.kind == Loadable && (forall n :: n in v.Owns(l) ==> n in v.attached)
    && v.Owns(l) != [] && v.Owns(l)[0] == l
    && (l !in parented ==> l in v.up && v.up[l] == v.root)
  }

  lemma NotAboveTop(v: View, depth: map<Node, nat>, l: Node, n: Node)
    requires v.Ok(depth) && l in v.up && v.up[l] == v.root && n in v.up
    ensures !Below(v.up, l, n) && !Below(v.up, v.root, n) && n != v.root
  {
    Parents(v, depth, l);
    hide View.Ok, Below;
    BelowStep(v.up, l, n);
    BelowStep(v.up, v.root, n);
  }

  /** One move keeps the tree: the loadable goes first, and from then on is above no node but
      its own. */
  lemma UnloadStep(v: View, depth: map<Node, nat>, l: Node, n: Node) returns (depth': map<Node, nat>)
    requires v.Ok(depth) && l in v.nodes && l.kind == Loadable && n in v.up && n in v.nodes
    requires if n.kind == Loadable then n == l else l in v.up && v.up[l] == v.root
    ensures v.Move(n, if n.kind == Loadable then v.root else l, -1).Ok(depth')
  {
    hide View.Ok, Below;
    if n == l {
      RootIsContainer(v, depth);
      NotBelowRoot(v, depth, n);
      depth' := MoveOk(v, depth, n, v.root, -1);
    } else {
      NotAboveTop(v, depth, l, n);
      depth' := MoveOk(v, depth, n, l, -1);
    }
  }

  lemma {:induction false} UnloadedOk(v: View, depth: map<Node, nat>, l: Node, parented: set<Node>, i: nat) returns (depth': map<Node, nat>)
    requires v.Ok(depth) && l in v.nodes && Unloadable(v, l, parented) && i <= |v.Owns(l)|
    ensures var s := v.Owns(l); var w := Unloaded(v, l, parented, s, i);
      && w.Ok(depth') && w == v.(up := w.up, kids := w.kids) && w.up.Keys == v.up.Keys
      && (forall n :: n in w.up ==> w.up[n] == Rehung(v, l, parented, s[..i], n))
      && (i > 0 ==> l in w.up && w.up[l] == w.root)
  {
    hide View.Ok, Below, View.Owns, View.Move;
    OwnersOf(v, depth, l);
    depth' := depth;
    if i > 0 {
      var s := v.Owns(l);
      depth' := UnloadedOk(v, depth, l, parented, i - 1);
      var n := s[i - 1];
      var w := Unloaded(v, l, parented, s, i - 1);
      MoveFields(w, n, if n.kind == Loadable then w.root else l, -1);
      assert s[..i] == s[..i - 1] + [n];
      InNodes(v, depth, n);
      if n in parented {
        assert i > 1 ==> n != s[0];
        depth' := UnloadStep(w, depth', l, n);
      }
    }
  }

  lemma MoveFields(v: View, n: Node, p: Node, pos: int)
    ensures v.Move(n, p, pos) == v.(up := v.up[n := p], kids := v.Move(n, p, pos).kids)
  {
  }

  lemma RootIsContainer(v: View, depth: map<Node, nat>)
    requires v.Ok(depth)
    ensures v.root in v.nodes && v.root.kind == Root
  {
  }

  lemma NotBelowRoot(v: View, depth: map<Node, nat>, n: Node)
    requires v.Ok(depth) && n in v.up
    ensures n != v.root && !Below(v.up, v.root, n)
  {
    Parents(v, depth, n);
    hide View.Ok, Below;
    BelowStep(v.up, v.root, n);
  }

  // ---------------------------------------------------------------- destruction

  /** Owned nodes come after the owned container they are in, and these containers hold nothing
      that is not owned. */
  ghost predicate InCreationOrder(v: View, s: seq<Node>) {
    && (forall j :: 1 <= j < |s| ==> s[j] in v.up && v.up[s[j]] in s[..j])
    && (forall n :: n in v.up && v.up[n] in s ==> n in s)
  }

  /** What the destructor of a loadable relies on. */
  ghost predicate Destroyable(v: View, l: Node) {
    && l.kind == Loadable && l in v.nodes && l !in v.up && v.Owns(l) != [] && v.Owns(l)[0] == l
    && (forall n :: n in v.Owns(l) ==> n !in v.attached)
    && InCreationOrder(v, v.Owns(l))
  }

  /** Nodes created in the scripts' order, except for those a parent property has put
      elsewhere, and nothing of other loadables among them. */
  ghost predicate InLoadOrder(v: View, s: seq<Node>, parented: set<Node>) {
    && (forall j :: 1 <= j < |s| ==> s[j] in v.up && (s[j] in parented || v.up[s[j]] in s[..j]))
    && (forall n :: n in v.up && v.up[n] in s ==> n in s)
  }

  /** Unloading puts all nodes of the loadable back below it. */
  lemma UnloadedIsIsolated(v: View, depth: map<Node, nat>, l: Node, parented: set<Node>)
    requires v.Ok(depth) && l in v.nodes && Unloadable(v, l, parented) && InLoadOrder(v, v.Owns(l), parented)
    ensures var s := v.Owns(l); var w := Unloaded(v, l, parented, s, |s|);
      FullyAttached(w, l) && Isolated(w, l) && InCreationOrder(w, s)
  {
    hide View.Ok, View.Owns;
    var s := v.Owns(l);
    OwnersOf(v, depth, l);
    var d := UnloadedOk(v, depth, l, parented, |s|);
    assert s[..|s|] == s;
    var w := Unloaded(v, l, parented, s, |s|);
    hide Unloaded;
    SameOwns(v, w, l);
    RootNotOwned(v, depth, l);
    forall j | 1 <= j < |s| ensures s[j] in w.up && w.up[s[j]] in s[..j] {
      assert s[j] != s[0] && s[j] in s;
      assert s[..j][0] == l;
    }
    forall n | n in s && n != l ensures n in w.up && w.up[n] in s {
      var j :| 0 <= j < |s| && s[j] == n;
      assert w.up[s[j]] in s[..j];
    }
  }

  lemma RootNotOwned(v: View, depth: map<Node, nat>, l: Node)
    requires v.Ok(depth) && l in v.nodes && l.kind == Loadable
    ensures v.root !in v.Owns(l)
  {
    OwnersOf(v, depth, l);
    hide Mirror, Ranked;
  }

  /** Then removing it makes it ready for destruction. */
  lemma RemovedIsDestroyable(v: View, depth: map<Node, nat>, l: Node)
    requires v.Ok(depth) && FullyAttached(v, l) && InCreationOrder(v, v.Owns(l)) && v.Owns(l) != [] && v.Owns(l)[0] == l
    ensures Destroyable(RemovedFrom(v, v.Owns(l), 0), l)
  {
    hide View.Ok, View.Owns;
    var s := v.Owns(l);
    InNodes(v, depth, l);
    OwnersOf(v, depth, l);
    RemovedOk(v, depth, s, 0);
    assert s[0..] == s;
    var u := RemovedFrom(v, s, 0);
    SameOwns(v, u, l);
    hide RemovedFrom;
  }

  ghost function Elements(s: seq<Node>): set<Node> {
    set n | n in s
  }

  /** The hierarchy without some nodes: nothing else has changed. */
  ghost function Gone(v: View, gone: set<Node>): View {
    v.(nodes := v.nodes - gone, up := v.up - gone, kids := v.kids - gone, own := v.own - gone, owned := v.owned - gone,
       spots := v.spots - gone)
  }

  /** u is v with s[i..] deleted, s being all that l owns. */
  ghost predicate DeletedSoFar(v: View, u: View, s: seq<Node>, l: Node, i: nat)
    requires i <= |s|
  {
    var gone := Elements(s[i..]);
    && u == v.(nodes := v.nodes - gone, up := v.up - gone, own := v.own - gone, spots := v.spots - gone,
               kids := u.kids, owned := u.owned)
    && u.kids.Keys == u.owned.Keys == u.nodes
    && (forall m :: m !in s ==> u.Kids(m) == v.Kids(m) && u.Owns(m) == v.Owns(m))
    && (i > 0 ==> u.Owns(l) == s[..i])
  }

  lemma LaterThanParent(v: View, l: Node, c: Node, i: nat)
    requires Destroyable(v, l) && Distinct(v.Owns(l)) && i < |v.Owns(l)| && c in v.up && v.up[c] == v.Owns(l)[i]
    ensures c in v.Owns(l)[i + 1..]
  {
    var s := v.Owns(l);
    hide View.Owns;
    assert s[i] in s && c in s;
    var j :| 0 <= j < |s| && s[j] == c;
    assert j >= 1;
    var k :| 0 <= k < j && s[..j][k] == s[i];
    assert s[i + 1..][j - i - 1] == c;
  }

  lemma KidsAreBelow(v: View, depth: map<Node, nat>, n: Node, c: Node)
    requires v.Ok(depth) && c in v.Kids(n)
    ensures c in v.up && v.up[c] == n
  {
  }

  lemma NoKids(v: View, depth: map<Node, nat>, n: Node)
    requires v.Ok(depth) && (forall c :: c in v.up ==> v.up[c] != n)
    ensures v.Kids(n) == []
  {
    hide View.Ok, View.Kids;
    if v.Kids(n) != [] {
      KidsAreBelow(v, depth, n, v.Kids(n)[0]);
    }
  }

  lemma OwnedBy(v: View, depth: map<Node, nat>, n: Node, c: Node)
    requires v.Ok(depth) && c in v.Owns(n)
    ensures c in v.own && v.own[c] == n && n.kind == Loadable
  {
  }

  lemma OwnsNothing(v: View, depth: map<Node, nat>, n: Node)
    requires v.Ok(depth) && n.kind != Loadable
    ensures v.Owns(n) == []
  {
    hide View.Ok, View.Owns;
    if v.Owns(n) != [] {
      OwnedBy(v, depth, n, v.Owns(n)[0]);
    }
  }

  /** When its turn comes, a node is not in the toplevel, its contents are empty and it owns
      nothing but, if it is the loadable, itself. */
  lemma EmptyWhenDeleted(v: View, u: View, depth: map<Node, nat>, l: Node, i: nat)
    requires Destroyable(v, l) && i < |v.Owns(l)| && u.Ok(depth) && Distinct(v.Owns(l))
    requires forall n :: n in v.Owns(l) ==> n in v.nodes && (n.kind == Loadable ==> n == l)
    requires DeletedSoFar(v, u, v.Owns(l), l, i + 1)
    ensures var n := v.Owns(l)[i];
      n in u.nodes && n !in u.attached && u.Kids(n) == [] && (forall c :: c in u.Owns(n) ==> c == n)
  {
    hide View.Ok, View.Owns, View.Kids, InCreationOrder;
    var s := v.Owns(l);
    var n := s[i];
    assert n in s && n !in s[i + 1..];
    forall c | c in u.up ensures u.up[c] != n {
      if v.up[c] == n {
        LaterThanParent(v, l, c, i);
      }
    }
    NoKids(u, depth, n);
    if n.kind != Loadable {
      OwnsNothing(u, depth, n);
    } else {
      assert s[..1] == [l];
    }
  }

  lemma MinusMore<K, V>(m: map<K, V>, a: set<K>, k: K)
    ensures m - a - {k} == m - (a + {k})
  {
  }

  lemma LastGone(s: seq<Node>, i: nat)
    requires Distinct(s) && i < |s|
    ensures Without(s[..i + 1], s[i]) == s[..i]
    ensures Elements(s[i..]) == Elements(s[i + 1..]) + {s[i]}
  {
    ElementsFrom(s, i);
    hide Elements;
    var t, x := s[..i + 1], s[i];
    assert t[i] == x && x in t;
    var k := IndexOf(t, x);
    hide IndexOf, Without;
    assert k == i;
    WithoutAt(t, x);
    assert RemoveAt(t, i) == s[..i];
  }

  lemma ElementsFrom(s: seq<Node>, i: nat)
    requires i < |s|
    ensures Elements(s[i..]) == Elements(s[i + 1..]) + {s[i]}
  {
    assert s[i..] == [s[i]] + s[i + 1..];
  }

  /** One more deletion. */
  lemma DeleteNext(v: View, u: View, depth: map<Node, nat>, l: Node, i: nat)
    requires Destroyable(v, l) && i < |v.Owns(l)| && u.Ok(depth) && Distinct(v.Owns(l))
    requires forall n :: n in v.Owns(l) ==> n in v.nodes && n in v.own && v.own[n] == l
    requires DeletedSoFar(v, u, v.Owns(l), l, i + 1)
    ensures DeletedSoFar(v, u.Delete(v.Owns(l)[i]), v.Owns(l), l, i)
  {
    hide View.Ok, View.Owns, View.Kids, Without, InCreationOrder, View.Delete;
    var s := v.Owns(l);
    var n, gone := s[i], Elements(s[i + 1..]);
    assert n in s && n !in s[i + 1..];
    LastGone(s, i);
    MinusMore(v.up, gone, n);
    MinusMore(v.own, gone, n);
    MinusMore(v.spots, gone, n);
    DeleteFields(u, n);
    DeleteKeys(u, depth, n);
    if n in v.up {
      ParentIsOwned(v, l, n);
    }
    forall m | m !in s ensures u.Delete(n).Kids(m) == v.Kids(m) && u.Delete(n).Owns(m) == v.Owns(m) {
      DeleteElsewhere(u, depth, n, m);
    }
    if i > 0 {
      DeleteElsewhere(u, depth, n, l);
    }
  }

  lemma ParentIsOwned(v: View, l: Node, n: Node)
    requires Destroyable(v, l) && n in v.Owns(l) && n in v.up
    ensures v.up[n] in v.Owns(l)
  {
    var s := v.Owns(l);
    var j :| 0 <= j < |s| && s[j] == n;
    assert v.up[s[j]] in s[..j];
  }

  /** What deleting n does to the vectors of another node. */
  lemma DeleteElsewhere(u: View, depth: map<Node, nat>, n: Node, m: Node)
    requires u.Ok(depth) && n in u.nodes && m != n
    ensures (n in u.up ==> m != u.up[n]) ==> u.Delete(n).Kids(m) == u.Kids(m)
    ensures u.Delete(n).Owns(m) == if n in u.own && m == u.own[n] then Without(u.Owns(m), n) else u.Owns(m)
  {
    hide View.Ok, Without, View.KidsWithout, View.OwnedWithout, View.Delete;
    DeletePlaces(u, depth, n);
    DeleteFields(u, n);
  }

  lemma DeleteKeys(u: View, depth: map<Node, nat>, n: Node)
    requires u.Ok(depth) && n in u.nodes
    ensures u.Delete(n).kids.Keys == u.Delete(n).owned.Keys == u.nodes - {n}
  {
    hide View.Ok, Without, View.KidsWithout, View.OwnedWithout, View.Delete;
    DeletePlaces(u, depth, n);
    DeleteFields(u, n);
    ListsOfAll(u, depth);
  }

  lemma DeleteFields(u: View, n: Node)
    ensures var w := u.Delete(n);
      && w == u.(nodes := u.nodes - {n}, up := u.up - {n}, own := u.own - {n}, spots := u.spots - {n}, kids := w.kids, owned := w.owned)
      && w.kids == u.KidsWithout(n) - {n} && w.owned == u.OwnedWithout(n) - {n}
  {
  }

  lemma ListsOfAll(v: View, depth: map<Node, nat>)
    requires v.Ok(depth)
    ensures v.kids.Keys == v.owned.Keys == v.nodes
  {
  }

  /** All nodes of a destroyed loadable are gone, and nothing else has changed. */
  lemma AllDeleted(v: View, u: View, depth: map<Node, nat>, l: Node)
    requires v.Ok(depth) && u.Ok(depth - Elements(v.Owns(l))) && DeletedSoFar(v, u, v.Owns(l), l, 0)
    ensures u == Gone(v, Elements(v.Owns(l)))
  {
    hide View.Ok, View.Owns, View.Kids;
    var s := v.Owns(l);
    var gone := Elements(s);
    assert s[0..] == s;
    ListsOfAll(v, depth);
    ListsOfAll(u, depth - gone);
    forall m | m in u.nodes ensures u.kids[m] == v.kids[m] && u.owned[m] == v.owned[m] {
      assert m !in s;
      ListsOf(v, depth, m);
      ListsOf(u, depth - gone, m);
    }
    assert u.kids == v.kids - gone;
    assert u.owned == v.owned - gone;
  }

  lemma ListsOf(v: View, depth: map<Node, nat>, m: Node)
    requires v.Ok(depth) && m in v.nodes
    ensures m in v.kids && m in v.owned && v.Kids(m) == v.kids[m] && v.Owns(m) == v.owned[m]
  {
  }

  lemma OrphansNotOwned(v: View, orphans: Option<Node>, l: Node, depth: map<Node, nat>)
    requires v.Ok(depth) && OrphansOk(v, orphans) && l in v.nodes && l.kind == Loadable
    ensures orphans.Some? ==> orphans.value !in v.Owns(l)
  {
    hide View.Ok, View.Owns;
    OwnersOf(v, depth, l);
  }

  lemma NothingDeleted(v: View, depth: map<Node, nat>, l: Node)
    requires v.Ok(depth) && Destroyable(v, l)
    ensures var s := v.Owns(l); Elements(s[|s|..]) == {} && depth - Elements(s[|s|..]) == depth && DeletedSoFar(v, v, s, l, |s|)
  {
    hide View.Ok, View.Owns, View.Kids;
    var s := v.Owns(l);
    assert Elements(s[|s|..]) == {};
    assert s[..|s|] == s;
    ListsOfAll(v, depth);
    assert forall m: map<Node, nat> :: m - {} == m;
    assert v.up - {} == v.up && v.own - {} == v.own && v.spots - {} == v.spots && v.nodes - {} == v.nodes;
  }

  lemma OwnedNow(v: View, u: View, depth: map<Node, nat>, l: Node, i: nat)
    requires Destroyable(v, l) && Distinct(v.Owns(l)) && 1 <= i <= |v.Owns(l)| && u.Ok(depth)
    requires DeletedSoFar(v, u, v.Owns(l), l, i)
    ensures l in u.nodes && l in u.owned && u.owned[l] == v.Owns(l)[..i] && l !in u.up && l !in u.attached
  {
    hide View.Ok, View.Owns, InCreationOrder;
    var s := v.Owns(l);
    assert s[0] in s && l !in s[i..];
    ListsOf(u, depth, l);
  }

  lemma DeleteItself(v: View, l: Node)
    requires l !in v.up && l in v.own && v.own[l] == l
    ensures v.Delete(l) == v.(own := v.own - {l}, owned := v.owned - {l}, kids := v.kids - {l}, nodes := v.nodes - {l},
                              spots := v.spots - {l})
  {
    var x := Without(v.Owns(l), l);
    hide Without;
    assert v.owned[l := x] - {l} == v.owned - {l};
  }

  /** Destroying a loadable leaves the rest settled. */
  lemma GoneSettled(v: View, depth: map<Node, nat>, l: Node)
    requires Destroyable(v, l) && Settled(v)
    ensures Settled(Gone(v, Elements(v.Owns(l))))
  {
    hide View.Owns;
  }
}
