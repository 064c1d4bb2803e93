/** Cancelling a load (ecos/host/libcdl/base.cxx, transaction_cancel_load): the loadable is
    unbound, removed and destroyed, and the rest of the hierarchy keeps its place and order, but
    for the nodes that were re-parented below the loadable: they become the last orphans. */
module HierarchyCancel {
  import opened Common
  import opened ParentMap
  import opened NodeLists
  import opened HierarchyView
  import opened HierarchyLaws
  import opened HierarchyUnload

  /** s without the nodes that go. */
  function Others(s: seq<Node>, gone: set<Node>): seq<Node> {
    if s == [] then [] else
    Others(s[..|s| - 1], gone) + if s[|s| - 1] in gone then [] else [s[|s| - 1]]
  }

  lemma {:induction false} OthersJoin(a: seq<Node>, b: seq<Node>, gone: set<Node>)
    ensures Others(a + b, gone) == Others(a, gone) + Others(b, gone)
  {
    if b == [] {
      assert a + b == a;
    } else {
      assert (a + b)[..|a + b| - 1] == a + b[..|b| - 1];
      OthersJoin(a, b[..|b| - 1], gone);
    }
  }

  lemma OthersOne(n: Node, gone: set<Node>)
    ensures Others([n], gone) == if n in gone then [] else [n]
  {
    assert [n][..0] == [];
  }

  lemma OthersWithout(s: seq<Node>, n: Node, gone: set<Node>)
    requires n in gone
    ensures Others(Without(s, n), gone) == Others(s, gone)
  {
    if n in s {
      var i := IndexOf(s, n);
      hide IndexOf;
      assert s == s[..i] + [n] + s[i + 1..];
      OthersJoin(s[..i] + [n], s[i + 1..], gone);
      OthersJoin(s[..i], [n], gone);
      OthersJoin(s[..i], s[i + 1..], gone);
      OthersOne(n, gone);
    }
  }

  lemma OthersAppended(s: seq<Node>, n: Node, gone: set<Node>)
    requires n in gone
    ensures Others(s + [n], gone) == Others(s, gone)
  {
    OthersJoin(s, [n], gone);
    OthersOne(n, gone);
  }

  lemma {:induction false} AllOthers(s: seq<Node>, gone: set<Node>)
    requires forall n :: n in s ==> n !in gone
    ensures Others(s, gone) == s
  {
    if s != [] {
      assert s[|s| - 1] in s;
      AllOthers(s[..|s| - 1], gone);
    }
  }

  // ---------------------------------------------------------------- the rest of the hierarchy

  /** What v and w say of the nodes that stay is the same. */
  ghost predicate SameRest(v: View, w: View, gone: set<Node>) {
    && w.root == v.root && w.nodes == v.nodes && w.own == v.own && w.owned == v.owned
    && (forall n :: n !in gone ==> (n in w.up <==> n in v.up) && (n in w.up ==> w.up[n] == v.up[n]))
    && (forall n :: n !in gone ==> (n in w.attached <==> n in v.attached))
    && (forall n :: n !in gone ==> (n in w.spots <==> n in v.spots) && (n in w.spots ==> w.spots[n] == v.spots[n]))
    && (forall m :: Others(w.Kids(m), gone) == Others(v.Kids(m), gone))
    && Others(w.loadables, gone) == Others(v.loadables, gone)
  }

  lemma SameRestTransitive(u: View, v: View, w: View, gone: set<Node>)
    requires SameRest(u, v, gone) && SameRest(v, w, gone)
    ensures SameRest(u, w, gone)
  {
    hide View.Kids, Others;
  }

  lemma MoveKids(v: View, n: Node, p: Node, m: Node, gone: set<Node>)
    requires n in gone
    ensures Others(v.Move(n, p, -1).Kids(m), gone) == Others(v.Kids(m), gone)
  {
    hide Others, Without;
    OthersWithout(v.Kids(m), n, gone);
    OthersAppended(Without(v.Kids(m), n), n, gone);
  }

  lemma MoveRest(v: View, n: Node, p: Node, gone: set<Node>)
    requires n in gone
    ensures SameRest(v, v.Move(n, p, -1), gone)
  {
    hide View.Move, Others, View.Kids;
    MoveFields(v, n, p, -1);
    forall m ensures Others(v.Move(n, p, -1).Kids(m), gone) == Others(v.Kids(m), gone) {
      MoveKids(v, n, p, m, gone);
    }
  }

  lemma DetachKids(v: View, n: Node, m: Node, gone: set<Node>)
    requires n in gone
    ensures Others(v.Detach(n).Kids(m), gone) == Others(v.Kids(m), gone)
    ensures Others(v.Detach(n).loadables, gone) == Others(v.loadables, gone)
  {
    hide Others, Without;
    OthersWithout(v.Kids(m), n, gone);
    OthersWithout(v.loadables, n, gone);
  }

  lemma DetachRest(v: View, n: Node, gone: set<Node>)
    requires n in gone
    ensures SameRest(v, v.Detach(n), gone)
  {
    hide View.Detach, Others, View.Kids, Without;
    DetachedRest(v, n);
    DetachKids(v, n, v.root, gone);
    forall m ensures Others(v.Detach(n).Kids(m), gone) == Others(v.Kids(m), gone) {
      DetachKids(v, n, m, gone);
    }
  }

  lemma SameRestRefl(v: View, gone: set<Node>)
    ensures SameRest(v, v, gone)
  {
  }

  lemma {:induction false} UnloadedRest(v: View, l: Node, parented: set<Node>, s: seq<Node>, i: nat)
    requires i <= |s|
    ensures SameRest(v, Unloaded(v, l, parented, s, i), Elements(s))
  {
    hide SameRest, View.Move;
    SameRestRefl(v, Elements(s));
    if i > 0 {
      UnloadedRest(v, l, parented, s, i - 1);
      var w, n := Unloaded(v, l, parented, s, i - 1), s[i - 1];
      var p := if n.kind == Loadable then w.root else l;
      MoveRest(w, n, p, Elements(s));
      if n in parented {
        SameRestTransitive(v, w, w.Move(n, p, -1), Elements(s));
      }
    }
  }

  lemma {:induction false} RemovedRest(v: View, s: seq<Node>, i: nat)
    requires i <= |s|
    ensures SameRest(v, RemovedFrom(v, s, i), Elements(s))
    decreases |s| - i
  {
    hide SameRest, View.Detach;
    SameRestRefl(v, Elements(s));
    if i < |s| {
      RemovedRest(v, s, i + 1);
      var w, n := RemovedFrom(v, s, i + 1), s[i];
      DetachRest(w, n, Elements(s));
      if n in w.attached {
        SameRestTransitive(v, w, w.Detach(n), Elements(s));
      }
    }
  }

  /** v without some nodes: everything else is in its place and order. */
  ghost predicate Unwound(v: View, g: View, gone: set<Node>) {
    && g.root == v.root && g.nodes == v.nodes - gone && g.up == v.up - gone && g.own == v.own - gone
    && g.attached == v.attached - gone && g.spots == v.spots - gone && g.loadables == Others(v.loadables, gone)
    && (forall m :: m in g.nodes ==> g.Kids(m) == Others(v.Kids(m), gone) && g.Owns(m) == v.Owns(m))
    && (forall m :: m in g.attached ==> m.name in g.table && g.table[m.name] == m)
    && (forall name :: name in g.table ==> g.table[name] in g.attached && g.table[name].name == name)
  }

  lemma GoneKids(v: View, w: View, depth: map<Node, nat>, gone: set<Node>, m: Node)
    requires SameRest(v, w, gone) && Gone(w, gone).Ok(depth) && m in v.nodes && m !in gone
    ensures Gone(w, gone).Kids(m) == Others(v.Kids(m), gone)
  {
    var g := Gone(w, gone);
    assert g.Kids(m) == w.Kids(m);
    hide View.Ok, View.Kids, Others;
    forall n | n in g.Kids(m) ensures n !in gone {
      Child(g, depth, m, n);
    }
    AllOthers(g.Kids(m), gone);
  }

  lemma ListedAreNodes(v: View, depth: map<Node, nat>)
    requires v.Ok(depth)
    ensures forall n :: n in v.loadables ==> n in v.nodes
    ensures v.attached <= v.nodes
    ensures forall m :: m in v.attached ==> m.name in v.table && v.table[m.name] == m
    ensures forall name :: name in v.table ==> v.table[name] in v.attached && v.table[name].name == name
  {
    hide Mirror, Ranked;
  }

  lemma SameCut<V>(m: map<Node, V>, w: map<Node, V>, gone: set<Node>)
    requires forall n :: n !in gone ==> (n in w <==> n in m) && (n in w ==> w[n] == m[n])
    ensures w - gone == m - gone
  {
  }

  lemma GoneIsUnwound(v: View, w: View, depth: map<Node, nat>, gone: set<Node>)
    requires SameRest(v, w, gone) && Gone(w, gone).Ok(depth) && v.attached <= v.nodes
    requires forall n :: n in gone ==> n !in w.attached
    ensures Unwound(v, Gone(w, gone), gone)
  {
    hide View.Ok, Others, View.Kids;
    var g := Gone(w, gone);
    ListedAreNodes(g, depth);
    AllOthers(g.loadables, gone);
    SameCut(v.up, w.up, gone);
    SameCut(v.spots, w.spots, gone);
    assert g.attached == v.attached - gone;
    forall m | m in g.nodes ensures g.Kids(m) == Others(v.Kids(m), gone) && g.Owns(m) == v.Owns(m) {
      GoneKids(v, w, depth, gone, m);
    }
  }

  lemma FirstIsItself(v: View, l: Node, parented: set<Node>)
    requires Unloadable(v, l, parented)
    ensures v.Owns(l) != [] && v.Owns(l)[0] == l && l.kind == Loadable
  {
  }

  lemma InNodesAll(v: View, depth: map<Node, nat>)
    requires v.Ok(depth)
    ensures v.attached <= v.nodes
  {
    ListedAreNodes(v, depth);
  }

  lemma MoveKeepsOwns(v: View, w: View, s: seq<Node>, l: Node)
    requires SameRest(v, w, Elements(s)) && s == v.Owns(l)
    ensures w.Owns(l) == s && w.nodes == v.nodes
  {
  }

  lemma RemovedOkElements(v: View, depth: map<Node, nat>, s: seq<Node>)
    requires v.Ok(depth) && Detachable(v, s)
    ensures forall n :: n in Elements(s) ==> n !in RemovedFrom(v, s, 0).attached
    ensures forall l :: RemovedFrom(v, s, 0).Owns(l) == v.Owns(l)
  {
    RemovedOk(v, depth, s, 0);
    assert s[0..] == s;
  }

  // ---------------------------------------------------------------- the Destroyed updates

  /** The Destroyed updates of the first i nodes of sources, whose parent properties name nodes
      that go: each becomes the last orphan. */
  ghost function Orphaned(v: View, orphan: Node, sources: seq<Node>, i: nat): View
    requires i <= |sources|
  {
    if i == 0 then v else Orphaned(v, orphan, sources, i - 1).Move(sources[i - 1], orphan, -1)
  }

  /** The nodes whose parent properties name nodes of the loadable: attached, and not the orphans
      container or the toplevel. */
  ghost predicate Sources(v: View, orphan: Node, sources: seq<Node>) {
    Distinct(sources) && forall n :: n in sources ==> n in v.attached && n != orphan
  }

  lemma {:induction false} OrphanedOk(v: View, depth: map<Node, nat>, orphan: Node, sources: seq<Node>, i: nat) returns (depth': map<Node, nat>)
    requires v.Ok(depth) && OrphansOk(v, Some(orphan)) && Sources(v, orphan, sources) && i <= |sources|
    ensures var w := Orphaned(v, orphan, sources, i);
      && w.Ok(depth') && OrphansOk(w, Some(orphan)) && w == v.(up := w.up, kids := w.kids) && w.up.Keys == v.up.Keys
      && (forall n :: n in w.up ==> w.up[n] == if n in sources[..i] then orphan else v.up[n])
  {
    hide View.Ok, Below, View.Move;
    depth' := depth;
    if i > 0 {
      depth' := OrphanedOk(v, depth, orphan, sources, i - 1);
      var w, n := Orphaned(v, orphan, sources, i - 1), sources[i - 1];
      assert n in sources && sources[..i] == sources[..i - 1] + [n];
      InNodes(w, depth', n);
      NotAboveTop(w, depth', orphan, n);
      MoveFields(w, n, orphan, -1);
      MoveOrphansOk(w, depth', Some(orphan), n, orphan, -1);
      depth' := MoveOk(w, depth', n, orphan, -1);
    }
  }

  lemma {:induction false} OthersTwice(s: seq<Node>, a: set<Node>, b: set<Node>)
    ensures Others(Others(s, a), b) == Others(s, a + b)
  {
    if s != [] {
      var front, last := s[..|s| - 1], s[|s| - 1];
      OthersTwice(front, a, b);
      if last !in a {
        OthersJoin(Others(front, a), [last], b);
        OthersOne(last, b);
      } else {
        assert Others(front, a) + [] == Others(front, a);
      }
    }
  }

  lemma {:induction false} OthersAre(s: seq<Node>, a: set<Node>)
    ensures forall n :: n in Others(s, a) <==> n in s && n !in a
  {
    if s != [] {
      OthersAre(s[..|s| - 1], a);
      assert s == s[..|s| - 1] + [s[|s| - 1]];
    }
  }

  lemma {:induction false} SameOthers(s: seq<Node>, a: set<Node>, b: set<Node>)
    requires forall n :: n in s ==> (n in a <==> n in b)
    ensures Others(s, a) == Others(s, b)
  {
    if s != [] {
      assert s[|s| - 1] in s;
      SameOthers(s[..|s| - 1], a, b);
    }
  }

  /** Taking a node out and not looking at it come to the same. */
  lemma WithoutIsOther(s: seq<Node>, n: Node, a: set<Node>)
    requires Distinct(s)
    ensures Others(Without(s, n), a + {n}) == Others(s, a + {n}) == Others(Without(s, n), a)
  {
    OthersWithout(s, n, a + {n});
    WithoutDistinct(s, n);
    hide Without, Others;
    SameOthers(Without(s, n), a, a + {n});
  }

  lemma KidsDistinct(v: View, depth: map<Node, nat>, m: Node)
    requires v.Ok(depth)
    ensures Distinct(v.Kids(m))
  {
    if m in v.nodes {
      KidsListed(v, depth, m);
      hide View.Ok, Distinct;
      ListedOwners(v.nodes, v.up, v.kids, m);
    } else {
      KidsListed(v, depth, v.root);
    }
  }

  /** What one move does to the contents of any node, but for the nodes in a. */
  lemma MovedKids(v: View, depth: map<Node, nat>, n: Node, p: Node, m: Node, a: set<Node>)
    requires v.Ok(depth) && n in v.up
    ensures Others(v.Move(n, p, -1).Kids(m), a)
         == Others(v.Kids(m), a + {n}) + if m == p && n !in a then [n] else []
  {
    hide View.Ok, View.Kids, View.Move, Distinct, Without, Others;
    KidsDistinct(v, depth, m);
    AtOneParent(v, depth, n, m);
    WithoutIsOther(v.Kids(m), n, a);
    MoveKidsAre(v, n, p, m);
    OthersJoin(Without(v.Kids(m), n), if m == p then [n] else [], a);
    OthersOne(n, a);
    NoOthers(a);
  }

  lemma MoveKidsAre(v: View, n: Node, p: Node, m: Node)
    requires n in v.up && (m != v.up[n] ==> Without(v.Kids(m), n) == v.Kids(m))
    ensures v.Move(n, p, -1).Kids(m) == Without(v.Kids(m), n) + if m == p then [n] else []
  {
    hide Without;
  }

  lemma AtOneParent(v: View, depth: map<Node, nat>, n: Node, m: Node)
    requires v.Ok(depth) && n in v.up
    ensures m != v.up[n] ==> Without(v.Kids(m), n) == v.Kids(m)
  {
    hide View.Ok, View.Kids;
    if n in v.Kids(m) {
      KidsAreBelow(v, depth, m, n);
    }
  }

  /** The contents of any node after the Destroyed updates, but for the nodes that go. */
  lemma {:induction false} OrphanedKids(v: View, depth: map<Node, nat>, orphan: Node, sources: seq<Node>, i: nat, m: Node, gone: set<Node>)
    requires v.Ok(depth) && OrphansOk(v, Some(orphan)) && Sources(v, orphan, sources) && i <= |sources|
    ensures Others(Orphaned(v, orphan, sources, i).Kids(m), gone)
         == Others(v.Kids(m), gone + Elements(sources[..i])) + if m == orphan then Others(sources[..i], gone) else []
  {
    hide View.Ok, View.Move, View.Kids, Others;
    if i > 0 {
      OrphanedKids(v, depth, orphan, sources, i - 1, m, gone + {sources[i - 1]});
      var d := OrphanedOk(v, depth, orphan, sources, i - 1);
      var w, n, before := Orphaned(v, orphan, sources, i - 1), sources[i - 1], sources[..i - 1];
      assert n in sources && n !in before && sources[..i] == before + [n];
      InNodes(w, d, n);
      MovedKids(w, d, n, orphan, m, gone);
      assert gone + {n} + Elements(before) == gone + Elements(sources[..i]);
      SameOthers(before, gone, gone + {n});
      OthersJoin(before, [n], gone);
      OthersOne(n, gone);
    } else {
      assert sources[..0] == [] && gone + Elements([]) == gone;
      NoOthers(gone);
    }
  }

  lemma NoOthers(gone: set<Node>)
    ensures Others([], gone) == []
  {
  }

  // ---------------------------------------------------------------- unbind

  /** What unbind and the destructor rely on: of the nodes of the loadable those without a
      parent property are where the scripts created them, and nodes of others are among them
      only because their parent properties say so. */
  ghost predicate Cancellable(v: View, l: Node, orphan: Node, sources: seq<Node>, parented: set<Node>) {
    && Unloadable(v, l, parented) && Sources(v, orphan, sources) && (forall n :: n in sources ==> n in parented)
    && (forall j :: 1 <= j < |v.Owns(l)| ==>
          v.Owns(l)[j] in v.up && (v.Owns(l)[j] in parented || v.up[v.Owns(l)[j]] in v.Owns(l)[..j]))
    && (forall n :: n in v.up && v.up[n] in v.Owns(l) ==> n in v.Owns(l) || n in sources)
  }

  /** After the Destroyed updates only nodes of the loadable are below its nodes. */
  lemma OrphanedIsUnloadable(v: View, depth: map<Node, nat>, l: Node, orphan: Node, sources: seq<Node>, parented: set<Node>)
    requires v.Ok(depth) && OrphansOk(v, Some(orphan)) && l in v.nodes && Cancellable(v, l, orphan, sources, parented)
    requires orphan !in v.Owns(l)
    ensures var w := Orphaned(v, orphan, sources, |sources|);
      w.Owns(l) == v.Owns(l) && Unloadable(w, l, parented) && InLoadOrder(w, w.Owns(l), parented)
  {
    hide View.Ok, View.Owns;
    var d := OrphanedOk(v, depth, orphan, sources, |sources|);
    assert sources[..|sources|] == sources;
    var w := Orphaned(v, orphan, sources, |sources|);
    SameOwns(v, w, l);
    hide Orphaned;
  }

  /** What cancelling a load leaves of v: without the nodes that go, everything else has its
      fields, place and order, but for the nodes in sources, which are now the last orphans. */
  ghost predicate Cancelled(v: View, g: View, gone: set<Node>, sources: seq<Node>, orphan: Node) {
    && g.root == v.root && g.nodes == v.nodes - gone && g.own == v.own - gone
    && g.attached == v.attached - gone && g.spots == v.spots - gone && g.loadables == Others(v.loadables, gone)
    && g.up.Keys == v.up.Keys - gone && (forall n :: n in g.up ==> g.up[n] == if n in sources then orphan else v.up[n])
    && (forall m :: m in g.nodes ==> g.Owns(m) == v.Owns(m))
    && (forall m :: m in g.nodes ==>
          g.Kids(m) == Others(v.Kids(m), gone + Elements(sources)) + if m == orphan then Others(sources, gone) else [])
    && (forall m :: m in g.attached ==> m.name in g.table && g.table[m.name] == m)
    && (forall name :: name in g.table ==> g.table[name] in g.attached && g.table[name].name == name)
  }

  lemma UnwoundIsCancelled(v: View, depth: map<Node, nat>, g: View, gone: set<Node>, sources: seq<Node>, orphan: Node)
    requires v.Ok(depth) && OrphansOk(v, Some(orphan)) && Sources(v, orphan, sources)
    requires Unwound(Orphaned(v, orphan, sources, |sources|), g, gone)
    ensures Cancelled(v, g, gone, sources, orphan)
  {
    hide View.Ok, View.Owns, View.Kids, Others;
    var d := OrphanedOk(v, depth, orphan, sources, |sources|);
    assert sources[..|sources|] == sources;
    var w := Orphaned(v, orphan, sources, |sources|);
    forall m | m in g.nodes
      ensures g.Owns(m) == v.Owns(m)
      ensures g.Kids(m) == Others(v.Kids(m), gone + Elements(sources)) + if m == orphan then Others(sources, gone) else []
    {
      SameOwns(v, w, m);
      OrphanedKids(v, depth, orphan, sources, |sources|, m, gone);
    }
    hide Orphaned;
  }

  lemma KeysAreNodes(v: View, depth: map<Node, nat>)
    requires v.Ok(depth)
    ensures v.up.Keys <= v.nodes && v.own.Keys <= v.nodes && v.spots.Keys <= v.nodes && v.attached <= v.nodes
  {
  }

  lemma KidsAreNodes(v: View, depth: map<Node, nat>, m: Node)
    requires v.Ok(depth)
    ensures forall n :: n in v.Kids(m) ==> n in v.nodes
  {
    hide View.Ok, View.Kids;
    forall n | n in v.Kids(m) ensures n in v.nodes {
      KidsAreBelow(v, depth, m, n);
      Parents(v, depth, n);
    }
  }

  lemma {:induction false} OrphanedNodes(v: View, orphan: Node, sources: seq<Node>, i: nat)
    requires i <= |sources|
    ensures Orphaned(v, orphan, sources, i).nodes == v.nodes
  {
    if i > 0 {
      OrphanedNodes(v, orphan, sources, i - 1);
    }
  }

  lemma UpInNodes(v: View, depth: map<Node, nat>)
    requires v.Ok(depth)
    ensures forall n :: n in v.up ==> n in v.nodes && v.up[n] in v.nodes
    ensures v.root in v.nodes
  {
    NotLinked(v.nodes, v.up, v.kids, v.root);
  }

  /** Cancelling a load leaves no removal half done: lookup and search agree afterwards. */
  lemma CancelledSettled(v: View, g: View, depth: map<Node, nat>, depthG: map<Node, nat>, gone: set<Node>, sources: seq<Node>, orphan: Node)
    requires v.Ok(depth) && g.Ok(depthG) && Settled(v) && OrphansOk(v, Some(orphan)) && Sources(v, orphan, sources)
    requires Cancelled(v, g, gone, sources, orphan)
    ensures Settled(g)
  {
    UpInNodes(v, depth);
    UpInNodes(g, depthG);
    hide View.Ok, View.Kids, View.Owns, Others;
  }
}
