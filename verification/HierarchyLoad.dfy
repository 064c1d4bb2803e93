/** Loading and cancelling (ecos/host/libcdl/base.cxx): a load adds the nodes of a new loadable
    and re-parents nodes, its own and, below its own, others.  Cancelling it restores the
    hierarchy exactly if the other nodes it re-parents were the last of the orphans. */
module HierarchyLoad {
  import opened Common
  import opened ParentMap
  import opened NodeLists
  import opened HierarchyView
  import opened HierarchyLaws
  import opened HierarchyUnload
  import opened HierarchyCancel

  /** add_node for a node of the loadable, or change_parent for the Loaded and Created updates of
      a parent property. */
  datatype LoadStep = AddStep(parent: Node, node: Node) | MoveStep(node: Node, parent: Node, pos: int)

  ghost function Done(w: View, l: Node, step: LoadStep): View {
    match step
    case AddStep(p, n) => w.Add(Some(l), p, n)
    case MoveStep(n, p, pos) => w.Move(n, p, pos)
  }

  ghost function AllDone(v: View, l: Node, steps: seq<LoadStep>): View {
    if steps == [] then v else Done(AllDone(v, l, steps[..|steps| - 1]), l, steps[|steps| - 1])
  }

  /** The steps of a load of l into v, w being the state it has reached.  The loadable is added
      first, below the toplevel, and other nodes in containers of its own.  A node is re-parented
      for its parent property, not below itself; one that was there before only ever below a new
      one, since that is what its property has been waiting for. */
  ghost predicate Legal(v: View, w: View, l: Node, orphan: Node, parented: set<Node>, step: LoadStep) {
    match step
    case AddStep(p, n) =>
      && n !in w.nodes && n.name !in w.table && n.kind != Root && (n.kind == Loadable <==> n == l) && p.kind != Plain
      && if n == l then p == w.root else p in w.nodes && p !in v.nodes
    case MoveStep(n, p, _) =>
      && n in w.attached && n in parented && n != orphan
      && (p == w.root || p in w.attached) && p.kind != Plain && p != n && !Below(w.up, p, n)
      && (n in v.nodes ==> p !in v.nodes)
  }

  ghost predicate AllLegal(v: View, l: Node, orphan: Node, parented: set<Node>, steps: seq<LoadStep>) {
    steps == [] || (AllLegal(v, l, orphan, parented, steps[..|steps| - 1])
                    && Legal(v, AllDone(v, l, steps[..|steps| - 1]), l, orphan, parented, steps[|steps| - 1]))
  }

  // ---------------------------------------------------------------- what a load keeps

  ghost predicate IsNew(v: View, w: View, n: Node) {
    n in w.nodes && n !in v.nodes
  }

  /** The nodes from before that the load has re-parented. */
  ghost function Adopted(v: View, w: View): set<Node> {
    set n | n in v.nodes && n in w.up && IsNew(v, w, w.up[n])
  }

  /** A node from before has the fields it had, but for the parent if it has been adopted. */
  ghost predicate OldNode(v: View, w: View, parented: set<Node>, n: Node) {
    && n in w.nodes && (n in w.attached <==> n in v.attached)
    && (n in w.own <==> n in v.own) && (n in w.own ==> w.own[n] == v.own[n])
    && (n in w.up <==> n in v.up)
    && (n in w.up ==> w.up[n] == v.up[n] || (n in parented && n in w.attached && IsNew(v, w, w.up[n])))
  }

  ghost predicate NewNode(w: View, l: Node, n: Node) {
    n in w.own && w.own[n] == l && n in w.attached && n in w.up
  }

  ghost predicate Fields(v: View, w: View, l: Node, parented: set<Node>) {
    && w.root == v.root && w.spots == v.spots
    && (forall n :: n in v.nodes ==> OldNode(v, w, parented, n))
    && (forall n :: n in w.nodes && n !in v.nodes ==> NewNode(w, l, n))
  }

  /** The vectors of a node from before, but for new and adopted nodes. */
  ghost predicate OldLists(v: View, w: View, added: set<Node>, adopted: set<Node>, m: Node) {
    Others(w.Kids(m), added) == Others(v.Kids(m), adopted) && w.Owns(m) == v.Owns(m)
  }

  /** The vectors of the nodes from before are as they were, but for the new and adopted ones. */
  ghost predicate Lists(v: View, w: View) {
    var added := w.nodes - v.nodes;
    && Others(w.loadables, added) == v.loadables
    && (forall m :: m in v.nodes ==> OldLists(v, w, added, Adopted(v, w), m))
  }

  /** The new nodes are owned in the order in which they were created. */
  ghost predicate NewOrder(v: View, w: View, l: Node, parented: set<Node>) {
    var s := w.Owns(l);
    && (forall n :: n in s <==> n in w.nodes && n !in v.nodes)
    && (s != [] ==> s[0] == l && (l in parented || (l in w.up && w.up[l] == w.root)))
    && (forall j :: 1 <= j < |s| ==> s[j] in w.up && (s[j] in parented || w.up[s[j]] in s[..j]))
  }

  lemma StartFields(v: View, depth: map<Node, nat>, l: Node, parented: set<Node>)
    requires v.Ok(depth) && l !in v.nodes
    ensures Fields(v, v, l, parented) && Lists(v, v) && NewOrder(v, v, l, parented)
  {
    assert v.nodes - v.nodes == {} && Adopted(v, v) == {};
    ListsOfAll(v, depth);
    hide View.Ok;
    assert v.Owns(l) == [];
    AllOthers(v.loadables, {});
  }

  lemma AddOld(v: View, w: View, l: Node, parented: set<Node>, p: Node, n: Node, m: Node)
    requires OldNode(v, w, parented, m) && m in v.nodes && n !in w.nodes
    ensures OldNode(v, w.Add(Some(l), p, n), parented, m)
  {
  }

  lemma AddNew(v: View, w: View, l: Node, p: Node, n: Node, m: Node)
    requires m == n || NewNode(w, l, m)
    ensures NewNode(w.Add(Some(l), p, n), l, m)
  {
  }

  lemma AddStepFields(v: View, w: View, l: Node, orphan: Node, parented: set<Node>, p: Node, n: Node)
    requires Fields(v, w, l, parented) && n !in w.nodes
    ensures Fields(v, w.Add(Some(l), p, n), l, parented)
  {
    var x := w.Add(Some(l), p, n);
    assert x.root == w.root && x.spots == w.spots && x.nodes == w.nodes + {n};
    hide View.Add, OldNode, NewNode;
    forall m | m in v.nodes ensures OldNode(v, x, parented, m) {
      OldIsThere(v, w, parented, m);
      AddOld(v, w, l, parented, p, n, m);
    }
    forall m | m in x.nodes && m !in v.nodes ensures NewNode(x, l, m) {
      AddNew(v, w, l, p, n, m);
    }
  }

  lemma OldIsThere(v: View, w: View, parented: set<Node>, m: Node)
    requires OldNode(v, w, parented, m)
    ensures m in w.nodes
  {
  }

  lemma MoveOld(v: View, w: View, parented: set<Node>, n: Node, p: Node, pos: int, m: Node)
    requires OldNode(v, w, parented, m) && n in w.up
    requires m == n ==> n in parented && n in w.attached && IsNew(v, w, p)
    ensures OldNode(v, w.Move(n, p, pos), parented, m)
  {
    MoveFields(w, n, p, pos);
    hide View.Move;
  }

  lemma MoveNew(w: View, l: Node, n: Node, p: Node, pos: int, m: Node)
    requires NewNode(w, l, m) && n in w.up
    ensures NewNode(w.Move(n, p, pos), l, m)
  {
    MoveFields(w, n, p, pos);
    hide View.Move;
  }

  lemma MoveStepFields(v: View, w: View, l: Node, parented: set<Node>, n: Node, p: Node, pos: int)
    requires Fields(v, w, l, parented) && n in w.up
    requires n in v.nodes ==> n in parented && n in w.attached && IsNew(v, w, p)
    ensures Fields(v, w.Move(n, p, pos), l, parented)
  {
    var x := w.Move(n, p, pos);
    MoveFields(w, n, p, pos);
    hide View.Move, OldNode, NewNode;
    forall m | m in v.nodes ensures OldNode(v, x, parented, m) {
      MoveOld(v, w, parented, n, p, pos, m);
    }
    forall m | m in x.nodes && m !in v.nodes ensures NewNode(x, l, m) {
      MoveNew(w, l, n, p, pos, m);
    }
  }

  // ---------------------------------------------------------------- the vectors

  lemma AddVectors(w: View, l: Node, p: Node, n: Node, m: Node)
    requires m != n
    ensures var x := w.Add(Some(l), p, n);
      && x.Kids(m) == w.Kids(m) + (if m == p then [n] else [])
      && x.Owns(m) == w.Owns(m) + (if m == l then [n] else [])
  {
  }

  lemma AddRest(w: View, l: Node, p: Node, n: Node)
    ensures var x := w.Add(Some(l), p, n);
      && x.nodes == w.nodes + {n} && x.up == w.up[n := p] && x.root == w.root
      && x.loadables == w.loadables + (if n.kind == Loadable then [n] else [])
  {
  }

  lemma AddAdopted(v: View, w: View, depth: map<Node, nat>, l: Node, p: Node, n: Node)
    requires w.Ok(depth) && n !in w.nodes && v.nodes <= w.nodes
    ensures Adopted(v, w.Add(Some(l), p, n)) == Adopted(v, w)
  {
    var x := w.Add(Some(l), p, n);
    assert x.up == w.up[n := p] && x.nodes == w.nodes + {n};
    hide View.Add, View.Ok;
    forall m | m in v.nodes && m in w.up ensures w.up[m] in w.nodes {
      Parents(w, depth, m);
    }
  }

  lemma OthersWithNew(s: seq<Node>, n: Node, added: set<Node>, more: bool)
    requires n !in s
    ensures Others(s + (if more then [n] else []), added + {n}) == Others(s, added)
  {
    OthersJoin(s, if more then [n] else [], added + {n});
    OthersOne(n, added + {n});
    NoOthers(added + {n});
    SameOthers(s, added, added + {n});
  }

  lemma AddOldLists(v: View, w: View, depth: map<Node, nat>, l: Node, p: Node, n: Node, added: set<Node>, adopted: set<Node>, m: Node)
    requires w.Ok(depth) && n !in w.nodes && m != n && m != l && OldLists(v, w, added, adopted, m)
    ensures OldLists(v, w.Add(Some(l), p, n), added + {n}, adopted, m)
  {
    hide View.Ok, View.Add, View.Kids, View.Owns, Others;
    AddVectors(w, l, p, n, m);
    KidsAreNodes(w, depth, m);
    OthersWithNew(w.Kids(m), n, added, m == p);
  }

  lemma AddStepLists(v: View, w: View, depth: map<Node, nat>, l: Node, p: Node, n: Node)
    requires w.Ok(depth) && Lists(v, w) && n !in w.nodes && v.nodes <= w.nodes && l !in v.nodes
    ensures Lists(v, w.Add(Some(l), p, n))
  {
    hide View.Ok, View.Add, View.Kids, View.Owns, Others, Adopted, OldLists;
    var x := w.Add(Some(l), p, n);
    AddAdopted(v, w, depth, l, p, n);
    AddRest(w, l, p, n);
    assert x.nodes - v.nodes == w.nodes - v.nodes + {n};
    ListedAreNodes(w, depth);
    OthersWithNew(w.loadables, n, w.nodes - v.nodes, n.kind == Loadable);
    forall m | m in v.nodes ensures OldLists(v, x, x.nodes - v.nodes, Adopted(v, x), m) {
      AddOldLists(v, w, depth, l, p, n, w.nodes - v.nodes, Adopted(v, w), m);
    }
  }

  lemma MoveOldLists(v: View, w: View, depth: map<Node, nat>, n: Node, p: Node, pos: int, added: set<Node>, adopted: set<Node>,
                     adopted': set<Node>, m: Node)
    requires w.Ok(depth) && n in w.up && OldLists(v, w, added, adopted, m)
    requires if n in added then adopted' == adopted else m != p && adopted' == adopted + {n}
    ensures OldLists(v, w.Move(n, p, pos), added, adopted', m)
  {
    hide View.Ok, View.Move, View.Kids, View.Owns, Others;
    MoveFields(w, n, p, pos);
    SameOwns(w, w.Move(n, p, pos), m);
    if n in added {
      MoveLists(w, n, p, pos, m, added);
    } else {
      KidsDistinct(w, depth, m);
      AtOneParent(w, depth, n, m);
      MoveAwayKids(w, n, p, pos, m);
      WithoutIsOther(w.Kids(m), n, added);
      OthersTwice(w.Kids(m), added, {n});
      OthersTwice(v.Kids(m), adopted, {n});
    }
  }

  lemma MoveLists(w: View, n: Node, p: Node, pos: int, m: Node, gone: set<Node>)
    requires n in gone
    ensures Others(w.Move(n, p, pos).Kids(m), gone) == Others(w.Kids(m), gone)
  {
    hide Others, Without, Placed;
    OthersWithout(w.Kids(m), n, gone);
    OthersPlaced(Without(w.Kids(m), n), n, pos, gone);
  }

  lemma OthersPlaced(s: seq<Node>, n: Node, pos: int, gone: set<Node>)
    requires n in gone
    ensures Others(Placed(s, n, pos), gone) == Others(s, gone)
  {
    if 0 <= pos <= |s| {
      assert s == s[..pos] + s[pos..];
      OthersJoin(s[..pos] + [n], s[pos..], gone);
      OthersJoin(s[..pos], [n], gone);
      OthersJoin(s[..pos], s[pos..], gone);
      OthersOne(n, gone);
    } else {
      OthersAppended(s, n, gone);
    }
  }

  lemma MoveAwayKids(w: View, n: Node, p: Node, pos: int, m: Node)
    requires n in w.up && m != p && (m != w.up[n] ==> Without(w.Kids(m), n) == w.Kids(m))
    ensures w.Move(n, p, pos).Kids(m) == Without(w.Kids(m), n)
  {
    hide Without, Placed;
  }

  lemma MoveStepLists(v: View, w: View, depth: map<Node, nat>, n: Node, p: Node, pos: int)
    requires w.Ok(depth) && Lists(v, w) && n in w.up && n in w.nodes && v.nodes <= w.nodes
    requires n in v.nodes ==> IsNew(v, w, p)
    ensures Lists(v, w.Move(n, p, pos))
  {
    hide View.Ok, View.Move, View.Kids, View.Owns, Others, OldLists;
    var x := w.Move(n, p, pos);
    MoveFields(w, n, p, pos);
    assert n in v.nodes ==> Adopted(v, x) == Adopted(v, w) + {n};
    assert n !in v.nodes ==> Adopted(v, x) == Adopted(v, w);
    hide Adopted;
    forall m | m in v.nodes ensures OldLists(v, x, x.nodes - v.nodes, Adopted(v, x), m) {
      MoveOldLists(v, w, depth, n, p, pos, w.nodes - v.nodes, Adopted(v, w), Adopted(v, x), m);
    }
  }

  // ---------------------------------------------------------------- the order of the new nodes

  lemma AddStepOrder(v: View, w: View, depth: map<Node, nat>, l: Node, parented: set<Node>, p: Node, n: Node)
    requires w.Ok(depth) && NewOrder(v, w, l, parented) && n !in w.nodes && v.nodes <= w.nodes
    requires if n == l then p == w.root else IsNew(v, w, p)
    ensures NewOrder(v, w.Add(Some(l), p, n), l, parented)
  {
    hide View.Ok, View.Add, View.Owns;
    var x := w.Add(Some(l), p, n);
    AddRest(w, l, p, n);
    var s := w.Owns(l);
    if n == l {
      FirstIn(s);
      AddOwnsFirst(w, l, p);
    } else {
      AddVectors(w, l, p, n, l);
      assert s != [];
    }
    var t := x.Owns(l);
    assert t == s + [n];
    forall j | 1 <= j < |t| ensures t[j] in x.up && (t[j] in parented || x.up[t[j]] in t[..j]) {
      assert t[..j] == if j < |s| then s[..j] else s;
      if j < |s| {
        assert s[j] in s;
      }
    }
  }

  lemma AddOwnsFirst(w: View, l: Node, p: Node)
    ensures w.Add(Some(l), p, l).Owns(l) == [l]
  {
  }

  lemma MoveStepOrder(v: View, w: View, l: Node, parented: set<Node>, n: Node, p: Node, pos: int)
    requires NewOrder(v, w, l, parented) && n in parented && n in w.up
    ensures NewOrder(v, w.Move(n, p, pos), l, parented)
  {
    hide View.Move, View.Owns;
    MoveFields(w, n, p, pos);
    SameOwns(w, w.Move(n, p, pos), l);
  }

  lemma FirstIn(s: seq<Node>)
    ensures s != [] ==> s[0] in s
  {
  }

  // ---------------------------------------------------------------- the whole load

  lemma LoadableIsThere(v: View, w: View, l: Node, parented: set<Node>, p: Node)
    requires NewOrder(v, w, l, parented) && IsNew(v, w, p)
    ensures IsNew(v, w, l)
  {
    hide View.Owns;
    assert p in w.Owns(l);
    FirstIn(w.Owns(l));
  }

  /** Every legal step keeps all invariants, and the nodes from before as they were, but for the
      adopted ones. */
  lemma {:induction false} LoadKeeps(v: View, depth: map<Node, nat>, l: Node, orphan: Node, parented: set<Node>, steps: seq<LoadStep>)
    returns (depth': map<Node, nat>)
    requires v.Ok(depth) && OrphansOk(v, Some(orphan)) && l !in v.nodes && l.kind == Loadable && orphan !in parented
    requires AllLegal(v, l, orphan, parented, steps)
    ensures var w := AllDone(v, l, steps);
      && w.Ok(depth') && OrphansOk(w, Some(orphan)) && v.nodes <= w.nodes
      && Fields(v, w, l, parented) && Lists(v, w) && NewOrder(v, w, l, parented)
  {
    hide View.Ok, View.Add, View.Move, Fields, Lists, NewOrder, OrphansOk, Below;
    depth' := depth;
    if steps == [] {
      StartFields(v, depth, l, parented);
    } else {
      var d := LoadKeeps(v, depth, l, orphan, parented, steps[..|steps| - 1]);
      var w := AllDone(v, l, steps[..|steps| - 1]);
      RootIsContainer(w, d);
      match steps[|steps| - 1]
      case AddStep(p, n) =>
        if n != l {
          LoadableIsThere(v, w, l, parented, p);
        }
        AddRest(w, l, p, n);
        AddOk(w, d, Some(l), p, n);
        AddOrphansOk(w, d, Some(orphan), Some(l), p, n);
        AddStepFields(v, w, l, orphan, parented, p, n);
        AddStepLists(v, w, d, l, p, n);
        AddStepOrder(v, w, d, l, parented, p, n);
        depth' := d[n := d[p] + 1];
      case MoveStep(n, p, pos) =>
        InNodes(w, d, n);
        if p != w.root {
          InNodes(w, d, p);
        }
        MoveFields(w, n, p, pos);
        MoveOrphansOk(w, d, Some(orphan), n, p, pos);
        MoveStepFields(v, w, l, parented, n, p, pos);
        MoveStepLists(v, w, d, n, p, pos);
        MoveStepOrder(v, w, l, parented, n, p, pos);
        depth' := MoveOk(w, d, n, p, pos);
    }
  }

  /** The sources of the references to the new nodes include every adopted node: that is what it
      was adopted for. */
  ghost predicate Refers(v: View, w: View, orphan: Node, sources: seq<Node>, parented: set<Node>) {
    && Sources(w, orphan, sources) && (forall n :: n in sources ==> n in parented)
    && (forall n :: n in Adopted(v, w) ==> n in sources)
  }

  /** A load can be cancelled. */
  lemma LoadIsCancellable(v: View, w: View, l: Node, orphan: Node, sources: seq<Node>, parented: set<Node>)
    requires Fields(v, w, l, parented) && NewOrder(v, w, l, parented) && Refers(v, w, orphan, sources, parented)
    requires l !in v.nodes && l in w.nodes && l.kind == Loadable && w.up.Keys <= w.nodes
    ensures Cancellable(w, l, orphan, sources, parented)
  {
    hide View.Owns, OldNode;
    assert l in w.Owns(l);
    forall n | n in w.up && w.up[n] in w.Owns(l) ensures n in w.Owns(l) || n in sources {
      assert n !in w.Owns(l) ==> n in Adopted(v, w);
    }
  }

  // ---------------------------------------------------------------- what cancelling restores

  lemma AddedAreOwned(v: View, w: View, l: Node, parented: set<Node>)
    requires NewOrder(v, w, l, parented)
    ensures Elements(w.Owns(l)) == w.nodes - v.nodes
  {
    hide View.Owns;
  }

  /** The contents of a node from before, after the load and its cancellation. */
  lemma KidsAfter(v: View, w: View, m: Node, added: set<Node>, adopted: set<Node>, referring: set<Node>)
    requires OldLists(v, w, added, adopted, m) && adopted <= referring
    ensures Others(w.Kids(m), added + referring) == Others(v.Kids(m), referring)
  {
    OthersTwice(w.Kids(m), added, referring);
    OthersTwice(v.Kids(m), adopted, referring);
    assert adopted + referring == referring;
  }

  /** The nodes referring from outside were the last orphans, in the order in which the
      Destroyed updates come. */
  ghost predicate WereLastOrphans(v: View, orphan: Node, sources: seq<Node>, added: set<Node>) {
    v.Kids(orphan) == Others(v.Kids(orphan), Elements(sources)) + Others(sources, added)
  }

  lemma WereOrphans(v: View, depth: map<Node, nat>, orphan: Node, sources: seq<Node>, added: set<Node>, n: Node)
    requires v.Ok(depth) && WereLastOrphans(v, orphan, sources, added) && n in sources && n !in added
    ensures n in v.up && v.up[n] == orphan
  {
    hide View.Ok, View.Kids, Others;
    OthersAre(sources, added);
    assert n in v.Kids(orphan);
    KidsAreBelow(v, depth, orphan, n);
  }

  lemma ElsewhereNone(v: View, depth: map<Node, nat>, orphan: Node, sources: seq<Node>, added: set<Node>, m: Node)
    requires v.Ok(depth) && WereLastOrphans(v, orphan, sources, added) && m != orphan && added !! v.nodes
    ensures Others(v.Kids(m), Elements(sources)) == v.Kids(m)
  {
    hide View.Ok, View.Kids, Others, WereLastOrphans;
    KidsAreNodes(v, depth, m);
    forall n | n in v.Kids(m) ensures n !in Elements(sources) {
      KidsAreBelow(v, depth, m, n);
      if n in sources {
        WereOrphans(v, depth, orphan, sources, added, n);
      }
    }
    AllOthers(v.Kids(m), Elements(sources));
  }

  lemma SameUp(v: View, w: View, g: View, depth: map<Node, nat>, l: Node, orphan: Node, sources: seq<Node>, parented: set<Node>)
    requires v.Ok(depth) && Fields(v, w, l, parented) && v.nodes <= w.nodes && w.up.Keys <= w.nodes
    requires Refers(v, w, orphan, sources, parented) && WereLastOrphans(v, orphan, sources, w.nodes - v.nodes)
    requires Cancelled(w, g, w.nodes - v.nodes, sources, orphan)
    ensures g.up == v.up
  {
    hide View.Ok, View.Kids, View.Owns, Others, WereLastOrphans;
    KeysAreNodes(v, depth);
    forall n | n in v.up ensures n in g.up && g.up[n] == v.up[n] {
      assert OldNode(v, w, parented, n);
      if n in sources {
        WereOrphans(v, depth, orphan, sources, w.nodes - v.nodes, n);
      } else {
        assert n !in Adopted(v, w);
      }
    }
    forall n | n in g.up ensures n in v.up {
      assert n in w.nodes && n !in w.nodes - v.nodes;
      assert OldNode(v, w, parented, n);
    }
  }

  lemma SameRestOfFields(v: View, w: View, g: View, depth: map<Node, nat>, l: Node, orphan: Node, sources: seq<Node>, parented: set<Node>)
    requires v.Ok(depth) && Fields(v, w, l, parented) && v.nodes <= w.nodes && w.own.Keys <= w.nodes && w.attached <= w.nodes
    requires Lists(v, w) && Cancelled(w, g, w.nodes - v.nodes, sources, orphan)
    ensures g.root == v.root && g.nodes == v.nodes && g.own == v.own && g.attached == v.attached && g.spots == v.spots
    ensures g.loadables == v.loadables
  {
    hide View.Ok, View.Kids, View.Owns, Others, OldLists;
    KeysAreNodes(v, depth);
    var added := w.nodes - v.nodes;
    assert g.nodes == v.nodes;
    forall n | n !in added ensures (n in w.own <==> n in v.own) && (n in w.own ==> w.own[n] == v.own[n]) {
      assert n in v.nodes ==> OldNode(v, w, parented, n);
    }
    CutBack(v.own, w.own, added);
    forall n | n in v.nodes ensures n in w.attached <==> n in v.attached {
      assert OldNode(v, w, parented, n);
    }
    assert g.attached == v.attached;
    CutBack(v.spots, w.spots, added);
  }

  lemma CutBack<V>(m: map<Node, V>, w: map<Node, V>, added: set<Node>)
    requires m.Keys !! added
    requires forall n :: n !in added ==> (n in w <==> n in m) && (n in w ==> w[n] == m[n])
    ensures w - added == m
  {
  }

  lemma SameTables(v: View, g: View, depth: map<Node, nat>, depth': map<Node, nat>)
    requires v.Ok(depth) && g.Ok(depth') && g.attached == v.attached
    ensures g.table == v.table
  {
    hide View.Ok;
    forall name | name in g.table ensures name in v.table && v.table[name] == g.table[name] {
      TableNames(g, depth', name);
      DetachedNames(v, depth, g.table[name]);
    }
    forall name | name in v.table ensures name in g.table {
      TableNames(v, depth, name);
      DetachedNames(g, depth', v.table[name]);
    }
  }

  lemma SameVectors(v: View, g: View, depth: map<Node, nat>, depth': map<Node, nat>)
    requires v.Ok(depth) && g.Ok(depth') && g.nodes == v.nodes
    requires forall m :: m in g.nodes ==> g.Kids(m) == v.Kids(m) && g.Owns(m) == v.Owns(m)
    ensures g.kids == v.kids && g.owned == v.owned
  {
    hide View.Ok, View.Kids, View.Owns;
    ListsOfAll(v, depth);
    ListsOfAll(g, depth');
    forall m | m in v.nodes ensures g.kids[m] == v.kids[m] && g.owned[m] == v.owned[m] {
      ListsOf(v, depth, m);
      ListsOf(g, depth', m);
    }
  }

  lemma OrphanIsOld(v: View, orphan: Node)
    requires OrphansOk(v, Some(orphan))
    ensures orphan in v.nodes
  {
  }

  /** The contents left: as before in any case but for the referring nodes, which are now the
      last orphans. */
  lemma KidsLeft(v: View, w: View, g: View, orphan: Node, sources: seq<Node>, parented: set<Node>, m: Node)
    requires Lists(v, w) && Refers(v, w, orphan, sources, parented) && m in v.nodes && v.nodes <= w.nodes
    requires Cancelled(w, g, w.nodes - v.nodes, sources, orphan)
    ensures g.Owns(m) == v.Owns(m)
    ensures g.Kids(m) == Others(v.Kids(m), Elements(sources)) + if m == orphan then Others(sources, w.nodes - v.nodes) else []
  {
    hide View.Kids, View.Owns, Others;
    assert OldLists(v, w, w.nodes - v.nodes, Adopted(v, w), m);
    assert g.nodes == v.nodes;
    KidsAfter(v, w, m, w.nodes - v.nodes, Adopted(v, w), Elements(sources));
  }

  /** A cancelled load leaves the hierarchy exactly as it was if and only if the nodes from
      before that refer to the loadable were the last orphans. */
  lemma CancelRestoresExactly(v: View, w: View, g: View, depth: map<Node, nat>, depthW: map<Node, nat>, depthG: map<Node, nat>,
                              l: Node, orphan: Node, sources: seq<Node>, parented: set<Node>)
    requires v.Ok(depth) && w.Ok(depthW) && g.Ok(depthG) && OrphansOk(v, Some(orphan)) && v.nodes <= w.nodes
    requires Fields(v, w, l, parented) && Lists(v, w) && Refers(v, w, orphan, sources, parented)
    requires Cancelled(w, g, w.nodes - v.nodes, sources, orphan)
    ensures g == v <==> WereLastOrphans(v, orphan, sources, w.nodes - v.nodes)
  {
    hide View.Ok, View.Kids, View.Owns, Others, Fields, Lists, Refers, Cancelled;
    var added := w.nodes - v.nodes;
    OrphanIsOld(v, orphan);
    KidsLeft(v, w, g, orphan, sources, parented, orphan);
    KeysAreNodes(w, depthW);
    if WereLastOrphans(v, orphan, sources, added) {
      SameUp(v, w, g, depth, l, orphan, sources, parented);
      SameRestOfFields(v, w, g, depth, l, orphan, sources, parented);
      SameTables(v, g, depth, depthG);
      forall m | m in g.nodes ensures g.Kids(m) == v.Kids(m) && g.Owns(m) == v.Owns(m) {
        KidsLeft(v, w, g, orphan, sources, parented, m);
        if m != orphan {
          ElsewhereNone(v, depth, orphan, sources, added, m);
        }
      }
      SameVectors(v, g, depth, depthG);
    }
  }

  /** Loading and cancelling: after any legal steps the cancelled load leaves the hierarchy as it
      was if and only if the nodes from before that refer to the loadable were the last orphans. */
  lemma CancelUndoesLoad(v: View, depth: map<Node, nat>, l: Node, orphan: Node, parented: set<Node>, steps: seq<LoadStep>,
                         sources: seq<Node>, g: View, depthG: map<Node, nat>)
    requires v.Ok(depth) && OrphansOk(v, Some(orphan)) && l !in v.nodes && l.kind == Loadable && orphan !in parented
    requires AllLegal(v, l, orphan, parented, steps) && l in AllDone(v, l, steps).nodes
    requires Refers(v, AllDone(v, l, steps), orphan, sources, parented)
    ensures var w := AllDone(v, l, steps);
      && Cancellable(w, l, orphan, sources, parented)
      && (g.Ok(depthG) && Cancelled(w, g, Elements(w.Owns(l)), sources, orphan) ==>
            (g == v <==> WereLastOrphans(v, orphan, sources, Elements(w.Owns(l)))))
  {
    hide View.Ok, View.Owns, View.Kids, Fields, Lists, NewOrder, Refers, Cancelled, Cancellable, AllDone, WereLastOrphans;
    var w := AllDone(v, l, steps);
    var d := LoadKeeps(v, depth, l, orphan, parented, steps);
    KeysAreNodes(w, d);
    AddedAreOwned(v, w, l, parented);
    LoadIsCancellable(v, w, l, orphan, sources, parented);
    if g.Ok(depthG) && Cancelled(w, g, Elements(w.Owns(l)), sources, orphan) {
      CancelRestoresExactly(v, w, g, depth, d, depthG, l, orphan, sources, parented);
    }
  }

  /** In particular if only its own nodes refer to it. */
  lemma OwnReferencesRestore(v: View, depth: map<Node, nat>, orphan: Node, sources: seq<Node>, added: set<Node>)
    requires v.Ok(depth) && added !! v.nodes && (forall n :: n in sources ==> n in added)
    ensures WereLastOrphans(v, orphan, sources, added)
  {
    hide View.Ok, View.Kids, Others;
    KidsAreNodes(v, depth, orphan);
    AllOthers(v.Kids(orphan), Elements(sources));
    NoneOther(sources, added);
    assert v.Kids(orphan) + [] == v.Kids(orphan);
  }

  lemma {:induction false} NoneOther(s: seq<Node>, a: set<Node>)
    requires forall n :: n in s ==> n in a
    ensures Others(s, a) == []
  {
    if s != [] {
      assert s[|s| - 1] in s;
      NoneOther(s[..|s| - 1], a);
    }
  }

  // ---------------------------------------------------------------- a load that leaves a trace

  /** One node more. */
  lemma Grown(v: View, depth: map<Node, nat>, owner: Node, p: Node, n: Node, o: Node) returns (w: View, depth': map<Node, nat>)
    requires v.Ok(depth) && OrphansOk(v, Some(o)) && n !in v.nodes && n.name !in v.table && n.kind != Root
    requires p in v.nodes && p.kind != Plain && (if n.kind == Loadable then owner == n else owner in v.nodes && owner.kind == Loadable)
    ensures w.Ok(depth') && OrphansOk(w, Some(o)) && w.nodes == v.nodes + {n} && w.root == v.root && w.up == v.up[n := p]
    ensures w.attached == v.attached + {n} && w.table == v.table[n.name := n] && o != n
    ensures w.Kids(o) == v.Kids(o) + if p == o then [n] else []
  {
    hide View.Ok, View.Add, OrphansOk;
    AddOk(v, depth, Some(owner), p, n);
    AddOrphansOk(v, depth, Some(o), Some(owner), p, n);
    AddPlaces(v, depth, Some(owner), p, n);
    OrphanIsOld(v, o);
    AddVectors(v, owner, p, n, o);
    w, depth' := v.Add(Some(owner), p, n), depth[n := depth[p] + 1];
  }

  /** A hierarchy with a loadable whose nodes a and b are orphans, in this order. */
  lemma TwoOrphans(top: Node, o: Node, p: Node, a: Node, b: Node) returns (v: View, depth: map<Node, nat>)
    requires top.kind == Root && o.kind == Container && p.kind == Loadable && a.kind == Plain && b.kind == Plain
    requires o.name != p.name && o.name != a.name && o.name != b.name && p.name != a.name && p.name != b.name && a.name != b.name
    ensures v.Ok(depth) && OrphansOk(v, Some(o)) && v.nodes == {top, o, p, a, b} && v.root == top
    ensures v.Kids(o) == [a, b] && v.attached == {o, p, a, b} && v.table.Keys == {o.name, p.name, a.name, b.name}
    ensures v.up == map[o := top, p := top, a := o, b := o]
  {
    hide View.Ok, View.Add, OrphansOk;
    StartOk(top);
    AddOk(Start(top), map[top := 0], None, top, o);
    AddOrphan(Start(top), map[top := 0], o);
    StartAdded(top, o);
    v, depth := Start(top).Add(None, top, o), map[top := 0][o := 1];
    assert v.Kids(o) == [];
    v, depth := Grown(v, depth, p, top, p, o);
    v, depth := Grown(v, depth, p, o, a, o);
    v, depth := Grown(v, depth, p, o, b, o);
  }

  lemma AddOrphan(v: View, depth: map<Node, nat>, o: Node)
    requires v.Ok(depth) && o !in v.nodes && o.kind == Container
    ensures OrphansOk(v.Add(None, v.root, o), Some(o))
  {
    KeysAreNodes(v, depth);
    hide View.Ok;
  }

  lemma BackLast(v: View, o: Node, a: Node, b: Node, added: set<Node>)
    requires v.Kids(o) == [a, b] && a != b && a !in added
    ensures !WereLastOrphans(v, o, [a], added)
  {
    OthersJoin([a], [b], Elements([a]));
    OthersOne(a, Elements([a]));
    OthersOne(b, Elements([a]));
    OthersOne(a, added);
    hide Others;
    assert [a] + [b] == [a, b];
    assert Others([a, b], Elements([a])) == [b] && Others([a], added) == [a];
    assert ([b] + [a])[0] == b;
  }

  /** The first of two orphans refers to the loadable: it is re-parented below it, and comes back
      behind the other one. */
  lemma AdoptedExample() returns (v: View, depth: map<Node, nat>, l: Node, orphan: Node, steps: seq<LoadStep>, sources: seq<Node>,
                                  parented: set<Node>)
    ensures v.Ok(depth) && OrphansOk(v, Some(orphan)) && l !in v.nodes && l.kind == Loadable && orphan !in parented
    ensures AllLegal(v, l, orphan, parented, steps) && l in AllDone(v, l, steps).nodes
    ensures Refers(v, AllDone(v, l, steps), orphan, sources, parented)
    ensures !WereLastOrphans(v, orphan, sources, Elements(AllDone(v, l, steps).Owns(l)))
  {
    hide View.Ok, View.Add, View.Move, View.Kids, View.Owns, OrphansOk, WereLastOrphans, Below, NewOrder, Fields, Lists;
    var top, p := Node(0, "", Root), Node(2, "p", Loadable);
    var a, b := Node(3, "a", Plain), Node(4, "b", Plain);
    orphan, l := Node(1, "o", Container), Node(5, "l", Loadable);
    v, depth := TwoOrphans(top, orphan, p, a, b);
    sources, parented := [a], {a};
    steps := [AddStep(top, l), MoveStep(a, l, -1)];
    AddRest(v, l, top, l);
    var w := v.Add(Some(l), top, l);
    AddedAttached(v, l, top);
    AddOk(v, depth, Some(l), top, l);
    var d := depth[l := depth[top] + 1];
    NotAboveTop(w, d, l, a);
    assert steps[..1] == [AddStep(top, l)] && steps[..1][..0] == [];
    assert AllDone(v, l, steps[..1]) == w;
    assert AllLegal(v, l, orphan, parented, steps[..1]);
    MoveFields(w, a, l, -1);
    assert steps[..|steps| - 1] == steps[..1];
    var d' := LoadKeeps(v, depth, l, orphan, parented, steps);
    AddedAreOwned(v, AllDone(v, l, steps), l, parented);
    BackLast(v, orphan, a, b, Elements(w.Move(a, l, -1).Owns(l)));
  }

  lemma AddedAttached(v: View, l: Node, p: Node)
    ensures v.Add(Some(l), p, l).attached == v.attached + {l}
  {
  }
}
