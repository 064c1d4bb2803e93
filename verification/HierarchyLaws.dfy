/** What the operations of the hierarchy amount to together: a removal can be undone exactly, the
    name table agrees with a search of the tree, and a loadable that is unloaded can be removed
    and destroyed (ecos/host/libcdl/base.cxx). */
module HierarchyLaws {
  import opened Common
  import opened ParentMap
  import opened NodeLists
  import opened HierarchyView

  // ---------------------------------------------------------------- removing and returning

  /** add_node_to_toplevel undoes remove_node_from_toplevel: every field is as it was. */
  lemma DetachAttach(v: View, depth: map<Node, nat>, n: Node)
    requires v.Ok(depth) && n in v.attached && (n.kind == Loadable ==> n in v.up && v.up[n] == v.root)
    ensures n.kind == Loadable ==> v.Detach(n).CanReturn(n)
    ensures v.Detach(n).Attach(n) == v
  {
    hide View.Ok, InsertAt, RemoveAt, IndexOf, View.Detach, Without;
    DetachedPlaces(v, depth, n);
    DetachedRest(v, n);
    RestoreKey(v.table, n.name);
    assert v.attached - {n} + {n} == v.attached;
    if n.kind == Loadable {
      RemoveInsert(v.kids[v.root], IndexOf(v.kids[v.root], n));
      RemoveInsert(v.loadables, IndexOf(v.loadables, n));
      RestoreKey(v.up, n);
      RestoreEntry(v.kids, v.root, RemoveAt(v.kids[v.root], IndexOf(v.kids[v.root], n)));
      ForgetKey(v.spots, n, v.Detach(n).spots[n]);
    }
  }

  lemma RestoreKey<K, V>(m: map<K, V>, k: K)
    requires k in m
    ensures (m - {k})[k := m[k]] == m
  {
  }

  lemma RestoreEntry<K, V>(m: map<K, V>, k: K, x: V)
    requires k in m
    ensures m[k := x][k := m[k]] == m
  {
  }

  lemma ForgetKey<K, V>(m: map<K, V>, k: K, x: V)
    requires k !in m
    ensures m[k := x] - {k} == m
  {
  }

  lemma DetachedRest(v: View, n: Node)
    ensures v.Detach(n).attached == v.attached - {n} && v.Detach(n).table == v.table - {n.name}
    ensures var w := v.Detach(n);
      if n.kind == Loadable then
        w == v.(attached := w.attached, table := w.table, up := v.up - {n}, kids := v.kids[v.root := w.Kids(v.root)],
                loadables := w.loadables, spots := v.spots[n := (IndexOf(v.Kids(v.root), n), IndexOf(v.loadables, n))])
      else w == v.(attached := w.attached, table := w.table)
  {
    hide Without, IndexOf;
  }

  lemma DetachedPlaces(v: View, depth: map<Node, nat>, n: Node)
    requires v.Ok(depth) && n in v.attached && (n.kind == Loadable ==> n in v.up && v.up[n] == v.root)
    ensures n.name in v.table && v.table[n.name] == n && n !in v.spots
    ensures n.kind == Loadable ==>
      var w := v.Detach(n);
      && v.root in v.kids && v.Kids(v.root) == v.kids[v.root] && n in v.kids[v.root] && n in v.loadables && n in w.spots
      && w.spots[n] == (IndexOf(v.kids[v.root], n), IndexOf(v.loadables, n))
      && w.Kids(w.root) == RemoveAt(v.kids[v.root], IndexOf(v.kids[v.root], n))
      && w.loadables == RemoveAt(v.loadables, IndexOf(v.loadables, n))
  {
    IsListed(v, depth, n);
    hide Ranked, Mirror;
  }

  /** remove_loadable_from_toplevel: the nodes s[i..] removed, from the back, those that are
      still attached. */
  ghost function RemovedFrom(v: View, s: seq<Node>, i: nat): View
    requires i <= |s|
    decreases |s| - i
  {
    if i == |s| then v else
    var w := RemovedFrom(v, s, i + 1);
    if s[i] in w.attached then w.Detach(s[i]) else w
  }

  /** add_loadable_to_toplevel: the nodes s[..i] returned, from the front. */
  ghost function ReturnedTo(v: View, s: seq<Node>, i: nat): View
    requires i <= |s|
  {
    if i == 0 then v else ReturnedTo(v, s, i - 1).Attach(s[i - 1])
  }

  /** Loadables can be removed when they are directly below the toplevel. */
  ghost predicate Detachable(v: View, s: seq<Node>) {
    forall n :: n in s && n.kind == Loadable && n in v.attached ==> n in v.up && v.up[n] == v.root
  }

  lemma {:induction false} RemovedOk(v: View, depth: map<Node, nat>, s: seq<Node>, i: nat)
    requires v.Ok(depth) && Detachable(v, s) && i <= |s|
    ensures var w := RemovedFrom(v, s, i);
      && w.Ok(depth) && w.nodes == v.nodes && w.root == v.root && w.own == v.own && w.owned == v.owned
      && (forall n :: n in w.attached <==> n in v.attached && n !in s[i..])
      && (forall n :: n in w.up <==> n in v.up && !(n in s[i..] && n.kind == Loadable && n in v.attached))
      && (forall n :: n in w.up ==> w.up[n] == v.up[n])
    decreases |s| - i
  {
    hide View.Ok;
    if i < |s| {
      RemovedOk(v, depth, s, i + 1);
      var w := RemovedFrom(v, s, i + 1);
      assert s[i..] == [s[i]] + s[i + 1..];
      if s[i] in w.attached {
        InTree(w, depth, s[i]);
        DetachOk(w, depth, s[i]);
      }
    }
  }

  lemma InTree(v: View, depth: map<Node, nat>, n: Node)
    requires v.Ok(depth) && n in v.attached
    ensures n in v.up
  {
  }

  lemma {:induction false} ReturnedUndoesRemoved(v: View, depth: map<Node, nat>, s: seq<Node>, i: nat)
    requires v.Ok(depth) && Detachable(v, s) && i <= |s|
    requires Distinct(s) && (forall n :: n in s ==> n in v.attached)
    ensures ReturnedTo(RemovedFrom(v, s, 0), s, i) == RemovedFrom(v, s, i)
  {
    hide View.Ok, View.Attach, View.Detach;
    if i > 0 {
      ReturnedUndoesRemoved(v, depth, s, i - 1);
      RemovedOk(v, depth, s, i);
      var w, n := RemovedFrom(v, s, i), s[i - 1];
      assert n !in s[i..];
      InTree(w, depth, n);
      DetachAttach(w, depth, n);
    }
  }

  /** Nodes that can be returned: not in the toplevel, their names not taken, not even by each
      other. */
  ghost predicate Returnable(v: View, s: seq<Node>) {
    && (forall n :: n in s ==> n !in v.attached && n.name !in v.table)
    && (forall i, j :: 0 <= i < j < |s| ==> s[i].name != s[j].name)
  }

  lemma {:induction false} ReturnNext(v: View, s: seq<Node>, l: Node, i: nat)
    requires Returnable(v, s) && v.CanReturn(l) && i <= |s|
    requires forall n :: n in s && n.kind == Loadable ==> n == l
    ensures var w := ReturnedTo(v, s, i);
      && w.nodes == v.nodes && w.root == v.root && (l in s[..i] || w.CanReturn(l))
      && (forall j :: i <= j < |s| ==> s[j] !in w.attached && s[j].name !in w.table && s[j] !in s[..i])
  {
    if i > 0 {
      ReturnNext(v, s, l, i - 1);
      var w, n := ReturnedTo(v, s, i - 1), s[i - 1];
      assert s[..i] == s[..i - 1] + [n];
      assert n in s;
      hide InsertAt;
    }
  }

  lemma {:induction false} RemovedCanReturn(v: View, depth: map<Node, nat>, s: seq<Node>, l: Node, i: nat)
    requires v.Ok(depth) && Detachable(v, s) && i <= |s| && l.kind == Loadable && l in v.attached
    requires forall n :: n in s && n.kind == Loadable ==> n == l
    ensures l in s[i..] ==> RemovedFrom(v, s, i).CanReturn(l)
    decreases |s| - i
  {
    hide View.Ok, View.Detach, View.CanReturn;
    if i < |s| {
      RemovedCanReturn(v, depth, s, l, i + 1);
      RemovedOk(v, depth, s, i + 1);
      var w, n := RemovedFrom(v, s, i + 1), s[i];
      assert s[i..] == [n] + s[i + 1..];
      assert n in s;
      if n in w.attached {
        InTree(w, depth, n);
        DetachAttach(w, depth, n);
        DetachedSpots(w, n);
      }
    }
  }

  lemma DetachedSpots(v: View, n: Node)
    ensures n.kind != Loadable ==> forall l :: v.Detach(n).CanReturn(l) <==> v.CanReturn(l)
  {
  }

  /** A loadable removed with all it owns meets the demands of add_loadable_to_toplevel. */
  lemma RemovedIsReturnable(v: View, depth: map<Node, nat>, l: Node)
    requires v.Ok(depth) && FullyAttached(v, l)
    ensures var w := RemovedFrom(v, v.Owns(l), 0);
      w.CanReturn(l) && Returnable(w, v.Owns(l)) && w.Owns(l) == v.Owns(l)
  {
    hide View.Ok, View.Owns, View.CanReturn;
    InNodes(v, depth, l);
    OwnersOf(v, depth, l);
    var s := v.Owns(l);
    var w := RemovedFrom(v, s, 0);
    RemovedOk(v, depth, s, 0);
    assert s[0..] == s;
    RemovedCanReturn(v, depth, s, l, 0);
    SameOwns(v, w, l);
    hide RemovedFrom;
    forall n | n in s ensures n.name !in w.table {
      DetachedNames(v, depth, n);
      if n.name in w.table {
        TableNames(w, depth, n.name);
        DetachedNames(v, depth, w.table[n.name]);
      }
    }
    forall i, j | 0 <= i < j < |s| ensures s[i].name != s[j].name {
      assert s[i] in s && s[j] in s;
      DetachedNames(v, depth, s[i]);
      DetachedNames(v, depth, s[j]);
    }
  }

  /** Several loadables removed one after the other. */
  ghost function Unplugged(v: View, ls: seq<Node>): View
    decreases ls
  {
    if ls == [] then v else Unplugged(RemovedFrom(v, v.Owns(ls[0]), 0), ls[1..])
  }

  /** The same loadables returned in reverse order. */
  ghost function Replugged(v: View, ls: seq<Node>): View {
    if ls == [] then v else
    var w := Replugged(v, ls[1..]);
    ReturnedTo(w, w.Owns(ls[0]), |w.Owns(ls[0])|)
  }

  /** A loadable directly below the toplevel with every node it owns attached. */
  ghost predicate FullyAttached(v: View, l: Node) {
    && l.kind == Loadable && l in v.attached && l in v.up && v.up[l] == v.root
    && (forall n :: n in v.Owns(l) ==> n in v.attached)
  }

  lemma OwnersOf(v: View, depth: map<Node, nat>, l: Node)
    requires v.Ok(depth) && l in v.nodes && l.kind == Loadable
    ensures Distinct(v.Owns(l)) && l in v.Owns(l) && l in v.owned
    ensures forall n :: n in v.Owns(l) <==> n in v.own && v.own[n] == l
    ensures forall n :: n in v.Owns(l) && n.kind == Loadable ==> n == l
    ensures forall n :: n in v.Owns(l) ==> n in v.nodes
  {
    hide View.Ok, Mirror, Distinct;
    OwnsListed(v, depth, l);
    ListedOwners(v.nodes, v.own, v.owned, l);
  }

  lemma OwnsListed(v: View, depth: map<Node, nat>, l: Node)
    requires v.Ok(depth) && l in v.nodes && l.kind == Loadable
    ensures Mirror(v.nodes, v.own, v.owned) && l in v.owned && v.Owns(l) == v.owned[l]
    ensures l in v.own && v.own[l] == l && (forall n :: n in v.own && n.kind == Loadable ==> v.own[n] == n)
  {
    NotLinked(v.nodes, v.own, v.owned, l);
    hide Ranked, View.IndexOk, Distinct, Mirror;
  }

  lemma ListedOwners(nodes: set<Node>, link: map<Node, Node>, lists: map<Node, seq<Node>>, l: Node)
    requires Mirror(nodes, link, lists) && l in nodes
    ensures l in lists && Distinct(lists[l])
    ensures forall n :: n in lists[l] <==> n in link && link[n] == l
    ensures forall n :: n in lists[l] ==> n in nodes
  {
    hide Distinct;
  }

  /** Last out, first in: removing fully attached loadables and returning them in reverse order
      restores the whole hierarchy, the order of contents and loadables included. */
  lemma {:induction false} LastOutFirstIn(v: View, depth: map<Node, nat>, ls: seq<Node>)
    requires v.Ok(depth) && Distinct(ls) && (forall l :: l in ls ==> FullyAttached(v, l))
    ensures Replugged(Unplugged(v, ls), ls) == v
    decreases ls
  {
    hide View.Ok, View.Attach, View.Detach, View.Owns;
    if ls != [] {
      var l := ls[0];
      assert l in ls && FullyAttached(v, l);
      InNodes(v, depth, l);
      OwnersOf(v, depth, l);
      var s := v.Owns(l);
      var w := RemovedFrom(v, s, 0);
      RemovedOk(v, depth, s, 0);
      assert s[0..] == s;
      forall k | k in ls[1..] ensures FullyAttached(w, k) {
        assert k in ls && k != l;
        InNodes(v, depth, k);
        OwnersOf(v, depth, k);
        SameOwns(v, w, k);
      }
      LastOutFirstIn(w, depth, ls[1..]);
      SameOwns(v, w, l);
      ReturnedUndoesRemoved(v, depth, s, |s|);
    }
  }

  lemma SameOwns(v: View, w: View, l: Node)
    requires v.owned == w.owned
    ensures v.Owns(l) == w.Owns(l)
  {
  }

  lemma InNodes(v: View, depth: map<Node, nat>, n: Node)
    requires v.Ok(depth) && n in v.attached
    ensures n in v.nodes && n in v.up
  {
  }

  // ---------------------------------------------------------------- the name table and the tree

  /** No removal is half done: a node is attached exactly if its parent is, or is the toplevel. */
  ghost predicate Settled(v: View) {
    forall n :: n in v.up ==> (n in v.attached <==> v.up[n] == v.root || v.up[n] in v.attached)
  }

  lemma {:induction false} AttachedIsBelowRoot(v: View, depth: map<Node, nat>, n: Node)
    requires v.Ok(depth) && Settled(v) && n in v.nodes
    ensures n in v.attached <==> Below(v.up, n, v.root)
    decreases depth[n]
  {
    BelowStep(v.up, n, v.root);
    if n in v.up {
      Parents(v, depth, n);
      AttachedIsBelowRoot(v, depth, v.up[n]);
    } else if n in v.attached {
      InNodes(v, depth, n);
    }
  }

  lemma Parents(v: View, depth: map<Node, nat>, n: Node)
    requires v.Ok(depth) && n in v.up
    ensures n in v.nodes && v.up[n] in v.nodes && n in depth && v.up[n] in depth && depth[v.up[n]] < depth[n]
    ensures v.root in v.nodes && v.root !in v.up && v.root !in v.attached
  {
  }

  /** In a settled hierarchy, and only there, the attached nodes are those below the toplevel. */
  lemma SettledExactly(v: View, depth: map<Node, nat>)
    requires v.Ok(depth)
    ensures Settled(v) <==> forall n :: n in v.nodes ==> (n in v.attached <==> Below(v.up, n, v.root))
  {
    hide View.Ok, Below;
    if Settled(v) {
      forall n | n in v.nodes ensures n in v.attached <==> Below(v.up, n, v.root) {
        AttachedIsBelowRoot(v, depth, n);
      }
    }
    if forall n :: n in v.nodes ==> (n in v.attached <==> Below(v.up, n, v.root)) {
      forall n | n in v.up ensures n in v.attached <==> v.up[n] == v.root || v.up[n] in v.attached {
        Parents(v, depth, n);
        BelowStep(v.up, n, v.root);
      }
    }
  }

  /** What a search below c for a name may return: a node of that name below c (directly below,
      unless the search is recursive), and nothing only if there is none. */
  ghost predicate Finds(v: View, c: Node, name: string, recurse: bool, found: Option<Node>) {
    match found
    case Some(n) => n.name == name && InReach(v, c, n, recurse)
    case None => forall n :: n in v.up && InReach(v, c, n, recurse) ==> n.name != name
  }

  ghost predicate InReach(v: View, c: Node, n: Node, recurse: bool) {
    n in v.up && (v.up[n] == c || (recurse && Below(v.up, n, c)))
  }

  /** lookup and a recursive find_node from the toplevel give the same answer. */
  lemma LookupAgrees(v: View, depth: map<Node, nat>, name: string, found: Option<Node>)
    requires v.Ok(depth) && Settled(v) && Finds(v, v.root, name, true, found)
    ensures found == if name in v.table then Some(v.table[name]) else None
  {
    match found {
      case Some(n) =>
        ReachIsBelow(v, n);
        Parents(v, depth, n);
        AttachedIsBelowRoot(v, depth, n);
        DetachedNames(v, depth, n);
      case None =>
        if name in v.table {
          var n := v.table[name];
          TableNames(v, depth, name);
          AttachedIsBelowRoot(v, depth, n);
        }
    }
  }

  /** The other way round, what lookup gives is what a search may give. */
  lemma TableFinds(v: View, depth: map<Node, nat>, name: string)
    requires v.Ok(depth) && Settled(v)
    ensures Finds(v, v.root, name, true, if name in v.table then Some(v.table[name]) else None)
  {
    hide View.Ok, InReach, Settled;
    if name in v.table {
      var n := v.table[name];
      TableNames(v, depth, name);
      ReachIsBelow(v, n);
      AttachedIsBelowRoot(v, depth, n);
    } else {
      forall n | n in v.up && InReach(v, v.root, n, true) ensures n.name != name {
        ReachIsBelow(v, n);
        Parents(v, depth, n);
        AttachedIsBelowRoot(v, depth, n);
        DetachedNames(v, depth, n);
      }
    }
  }

  lemma ReachIsBelow(v: View, n: Node)
    ensures InReach(v, v.root, n, true) <==> Below(v.up, n, v.root)
  {
    BelowStep(v.up, n, v.root);
  }

  lemma DetachedNames(v: View, depth: map<Node, nat>, n: Node)
    requires v.Ok(depth) && n in v.attached
    ensures n.name in v.table && v.table[n.name] == n
  {
  }

  lemma TableNames(v: View, depth: map<Node, nat>, name: string)
    requires v.Ok(depth) && name in v.table
    ensures v.table[name] in v.attached && v.table[name].name == name && v.table[name] in v.up && v.table[name] in v.nodes
  {
  }

  lemma AddSettled(v: View, depth: map<Node, nat>, owner: Option<Node>, p: Node, n: Node)
    requires v.Ok(depth) && Settled(v) && n !in v.nodes && (p == v.root || p in v.attached)
    ensures Settled(v.Add(owner, p, n))
  {
    Domains(v, depth);
    hide View.Ok;
  }

  lemma MoveSettled(v: View, depth: map<Node, nat>, n: Node, p: Node, pos: int)
    requires v.Ok(depth) && Settled(v) && n in v.attached && (p == v.root || p in v.attached)
    ensures Settled(v.Move(n, p, pos))
  {
    hide View.Ok;
  }

  /** The nodes of a loadable and nothing else are below it. */
  ghost predicate Isolated(v: View, l: Node) {
    && (forall n :: n in v.Owns(l) && n != l ==> n in v.up && v.up[n] in v.Owns(l))
    && (forall n :: n in v.up && v.up[n] in v.Owns(l) ==> n in v.Owns(l))
  }

  /** Removing all of an isolated loadable leaves the rest settled. */
  lemma RemovedSettled(v: View, depth: map<Node, nat>, l: Node)
    requires v.Ok(depth) && Settled(v) && FullyAttached(v, l) && Isolated(v, l)
    ensures Settled(RemovedFrom(v, v.Owns(l), 0))
  {
    hide View.Ok;
    InNodes(v, depth, l);
    OwnersOf(v, depth, l);
    Parents(v, depth, l);
    var s := v.Owns(l);
    RemovedOk(v, depth, s, 0);
    assert s[0..] == s;
    hide *;
    var w := RemovedFrom(v, s, 0);
    forall n | n in w.up ensures n in w.attached <==> w.up[n] == w.root || w.up[n] in w.attached {
      if n in s {
        assert n != l && v.up[n] in s;
      }
    }
  }

  // ---------------------------------------------------------------- searching

  ghost function Descendants(v: View, c: Node): set<Node> {
    set n | n in v.nodes && Below(v.up, n, c)
  }

  /** n is the child itself or, recursing, below it. */
  ghost predicate IsOrBelow(v: View, child: Node, n: Node, recurse: bool) {
    n == child || (recurse && InReach(v, child, n, true))
  }

  lemma InReachIsBelow(v: View, c: Node, n: Node)
    ensures InReach(v, c, n, true) <==> Below(v.up, n, c)
  {
    BelowStep(v.up, n, c);
  }

  lemma Child(v: View, depth: map<Node, nat>, c: Node, k: Node)
    requires v.Ok(depth) && c in v.nodes
    ensures k in v.Kids(c) <==> k in v.up && v.up[k] == c
    ensures k in v.Kids(c) ==> k in v.nodes
  {
    hide View.Ok, Mirror, Distinct;
    KidsListed(v, depth, c);
    ListedOwners(v.nodes, v.up, v.kids, c);
  }

  lemma KidsListed(v: View, depth: map<Node, nat>, c: Node)
    requires v.Ok(depth) && c in v.nodes
    ensures Mirror(v.nodes, v.up, v.kids) && c in v.kids && v.Kids(c) == v.kids[c]
  {
    NotLinked(v.nodes, v.up, v.kids, c);
    hide Mirror;
  }

  /** A recursive search gets smaller. */
  lemma ChildIsSmaller(v: View, depth: map<Node, nat>, c: Node, k: Node)
    requires v.Ok(depth) && c in v.nodes && k in v.Kids(c)
    ensures k in v.nodes && k in v.up && v.up[k] == c && Descendants(v, k) < Descendants(v, c)
  {
    hide View.Ok, Below, View.Kids;
    Child(v, depth, c, k);
    BelowStep(v.up, k, c);
    RanksOf(v, depth);
    forall n | n in v.nodes && Below(v.up, n, k) ensures Below(v.up, n, c) {
      BelowTransitive(v.up, n, k, c);
    }
    if Below(v.up, k, k) {
      RankedIsAcyclic(v.up, depth, k);
    }
    assert k in Descendants(v, c) && k !in Descendants(v, k);
  }

  lemma RanksOf(v: View, depth: map<Node, nat>)
    requires v.Ok(depth)
    ensures Ranked(v.up, depth) && depth.Keys == v.nodes
  {
  }

  lemma ReachThroughChild(v: View, depth: map<Node, nat>, c: Node, n: Node, recurse: bool, child: Node)
    requires v.Ok(depth) && c in v.nodes && child in v.Kids(c) && IsOrBelow(v, child, n, recurse)
    ensures InReach(v, c, n, recurse)
  {
    hide View.Ok, Below, View.Kids;
    Child(v, depth, c, child);
    if n != child {
      InReachIsBelow(v, child, n);
      BelowStep(v.up, child, c);
      BelowTransitive(v.up, n, child, c);
    }
  }

  lemma NotReached(v: View, depth: map<Node, nat>, c: Node, n: Node, recurse: bool)
    requires v.Ok(depth) && c in v.nodes
    requires forall k :: 0 <= k < |v.Kids(c)| ==> !IsOrBelow(v, v.Kids(c)[k], n, recurse)
    ensures !InReach(v, c, n, recurse)
  {
    if InReach(v, c, n, recurse) {
      var child := n;
      if v.up[n] != c {
        var k: nat :| k > 0 && Climb(v.up, n, k) == Some(c);
        child := BelowThroughChild(v.up, n, c, k);
        InReachIsBelow(v, child, n);
      }
      hide View.Ok, Below, View.Kids;
      Child(v, depth, c, child);
    }
  }

  /** Nothing is below a node that is not a container. */
  lemma PlainIsEmpty(v: View, depth: map<Node, nat>, child: Node, n: Node)
    requires v.Ok(depth)
    ensures child.kind == Plain ==> !InReach(v, child, n, true)
  {
    if child.kind == Plain && InReach(v, child, n, true) {
      if v.up[n] != child {
        var k: nat :| k > 0 && Climb(v.up, n, k) == Some(child);
        var c := BelowThroughChild(v.up, n, child, k);
        PlainHasNone(v, depth, c);
      } else {
        PlainHasNone(v, depth, n);
      }
    }
  }

  lemma PlainHasNone(v: View, depth: map<Node, nat>, n: Node)
    requires v.Ok(depth) && n in v.up
    ensures v.up[n].kind != Plain
  {
  }

  /** Searching from any container of an acyclic hierarchy, "contains" says where a node must
      not be moved: exactly below itself and its own descendants. */
  lemma ContainsIsCycleTest(v: View, depth: map<Node, nat>, s: Node, d: Node)
    requires v.Ok(depth) && s in v.nodes && d in v.nodes && s != d
    ensures InReach(v, s, d, true) <==> exists n :: n in Moved(v.up, s, d) && OnCycle(Moved(v.up, s, d), n)
  {
    hide View.Ok, Below, OnCycle, Moved;
    InReachIsBelow(v, s, d);
    RanksOf(v, depth);
    MoveClosesCycle(v.up, depth, s, d);
  }

  // ---------------------------------------------------------------- the order below the toplevel

  /** Where a node is put that its parent property wants directly below the toplevel. */
  function FirstUnparented(s: seq<Node>, parented: set<Node>): (k: nat)
    ensures k <= |s| && (k < |s| ==> s[k] !in parented) && (forall i :: 0 <= i < k ==> s[i] in parented)
  {
    if s == [] || s[0] !in parented then 0 else 1 + FirstUnparented(s[1..], parented)
  }

  /** Nodes with a parent property come ahead of those that are not specifically re-parented. */
  ghost predicate ParentedFirst(s: seq<Node>, parented: set<Node>) {
    forall i, j :: 0 <= i < j < |s| && s[j] in parented ==> s[i] in parented
  }

  /** The place fits, since the orphans container has no parent property. */
  lemma RootPlaceFits(s: seq<Node>, x: Node, orphan: Node, parented: set<Node>)
    requires Distinct(s) && orphan in s && orphan !in parented && orphan != x
    ensures FirstUnparented(s, parented) < |s| && FirstUnparented(s, parented) <= |Without(s, x)|
  {
    var k := FirstUnparented(s, parented);
    var o :| 0 <= o < |s| && s[o] == orphan;
    hide FirstUnparented;
    assert k <= o;
  }

  /** x put in at the first unparented place of a vector that does not hold it. */
  lemma PlacedInOrder(t: seq<Node>, x: Node, parented: set<Node>)
    requires x in parented && ParentedFirst(t, parented)
    ensures ParentedFirst(Placed(t, x, FirstUnparented(t, parented)), parented)
  {
    var k := FirstUnparented(t, parented);
    hide FirstUnparented;
    var u := InsertAt(t, k, x);
    assert k < |t| ==> t[k] !in parented;
    forall i, j | 0 <= i < j < |u| && u[j] in parented ensures u[i] in parented {
      assert j <= k;
    }
  }

  lemma WithoutLater(s: seq<Node>, x: Node, parented: set<Node>)
    requires x in s ==> IndexOf(s, x) >= FirstUnparented(s, parented)
    requires x in parented
    ensures FirstUnparented(Without(s, x), parented) == FirstUnparented(s, parented)
  {
    var k := FirstUnparented(s, parented);
    if x in s {
      var i := IndexOf(s, x);
      hide IndexOf;
      var t := RemoveAt(s, i);
      var m := FirstUnparented(t, parented);
      hide FirstUnparented;
      assert k < i;
      assert t[k] == s[k];
      assert forall j :: 0 <= j < k ==> t[j] == s[j];
    }
  }

  /** Where the parent property puts a node that is taken out first: its place was computed
      before.  The order survives exactly if the node was not below the toplevel already, ahead
      of the first node without a parent property. */
  lemma RootOrderExactly(s: seq<Node>, x: Node, parented: set<Node>)
    requires Distinct(s) && x in parented && ParentedFirst(Without(s, x), parented)
    requires FirstUnparented(s, parented) < |s|
    ensures ParentedFirst(Placed(Without(s, x), x, FirstUnparented(s, parented)), parented)
       <==> !(x in s && IndexOf(s, x) < FirstUnparented(s, parented))
  {
    var k := FirstUnparented(s, parented);
    if x in s && IndexOf(s, x) < k {
      var i := IndexOf(s, x);
      hide IndexOf, FirstUnparented;
      var t := RemoveAt(s, i);
      assert t[k - 1] == s[k];
      var u := InsertAt(t, k, x);
      assert u[k - 1] == s[k] && u[k] == x;
    } else {
      WithoutLater(s, x, parented);
      PlacedInOrder(Without(s, x), x, parented);
    }
  }

  /** The nodes directly below the toplevel are in order. */
  ghost predicate RootOrdered(v: View, parented: set<Node>) {
    ParentedFirst(v.Kids(v.root), parented)
  }

  lemma LastIsLater(s: seq<Node>, x: Node, parented: set<Node>)
    requires x !in s && FirstUnparented(s, parented) < |s|
    ensures FirstUnparented(s + [x], parented) == FirstUnparented(s, parented)
    ensures x in s + [x] && IndexOf(s + [x], x) == |s| && Without(s + [x], x) == s
  {
    var k, m := FirstUnparented(s, parented), FirstUnparented(s + [x], parented);
    hide FirstUnparented;
    assert (s + [x])[k] == s[k];
    assert forall j :: 0 <= j < k ==> (s + [x])[j] == s[j];
    assert (s + [x])[|s|] == x;
    var i := IndexOf(s + [x], x);
    hide IndexOf;
    assert i == |s|;
    WithoutAt(s + [x], x);
  }

  /** A node goes below the toplevel in order when it is not there yet, or last of all. */
  lemma LastKeepsOrder(s: seq<Node>, x: Node, parented: set<Node>)
    requires Distinct(s) && x in parented && FirstUnparented(s, parented) < |s| && ParentedFirst(s, parented) && x !in s
    ensures ParentedFirst(Placed(Without(s, x), x, FirstUnparented(s, parented)), parented)
    ensures ParentedFirst(Placed(Without(s + [x], x), x, FirstUnparented(s + [x], parented)), parented)
  {
    PlacedInOrder(s, x, parented);
    LastIsLater(s, x, parented);
  }

  lemma MoveWithinRoot(v: View, n: Node, pos: int)
    ensures v.Move(n, v.root, pos).Kids(v.root) == Placed(Without(v.Kids(v.root), n), n, pos)
    ensures v.Move(n, v.root, pos).root == v.root
  {
    hide Placed, Without;
  }

  lemma AddToRoot(v: View, owner: Option<Node>, n: Node)
    requires n != v.root
    ensures v.Add(owner, v.root, n).Kids(v.root) == v.Kids(v.root) + [n] && v.Add(owner, v.root, n).root == v.root
  {
  }

  lemma RootKids(v: View, depth: map<Node, nat>, orphan: Node, parented: set<Node>)
    requires v.Ok(depth) && orphan in v.up && v.up[orphan] == v.root && orphan !in parented
    ensures Distinct(v.Kids(v.root)) && FirstUnparented(v.Kids(v.root), parented) < |v.Kids(v.root)|
    ensures forall n :: n in v.Kids(v.root) <==> n in v.up && v.up[n] == v.root
  {
    RootListed(v, depth);
    RootIsNode(v, depth);
    KidsListed(v, depth, v.root);
    ListedOwners(v.nodes, v.up, v.kids, v.root);
    hide View.Ok, Mirror, Distinct;
    assert orphan in v.Kids(v.root);
  }

  lemma RootIsNode(v: View, depth: map<Node, nat>)
    requires v.Ok(depth)
    ensures v.root in v.nodes
  {
  }

  /** bind keeps the nodes below the toplevel in order: a node that its parent property wants
      there is new and has just been added below the toplevel, or somewhere else, or it has
      been put back below the toplevel when it was unloaded. */
  lemma BindKeepsRootOrder(v: View, depth: map<Node, nat>, owner: Option<Node>, n: Node, orphan: Node, parented: set<Node>)
    requires v.Ok(depth) && orphan in v.up && v.up[orphan] == v.root && orphan !in parented
    requires RootOrdered(v, parented) && n in parented && n != v.root
    ensures n !in v.nodes ==>
      var w := v.Add(owner, v.root, n); RootOrdered(w.Move(n, w.root, FirstUnparented(w.Kids(w.root), parented)), parented)
    ensures n in v.up && v.up[n] != v.root ==>
      RootOrdered(v.Move(n, v.root, FirstUnparented(v.Kids(v.root), parented)), parented)
    ensures n in v.up ==>
      var w := v.Move(n, v.root, -1); RootOrdered(w.Move(n, w.root, FirstUnparented(w.Kids(w.root), parented)), parented)
  {
    RootKids(v, depth, orphan, parented);
    KidsInNodes(v, depth);
    hide View.Ok, View.Kids, View.Move, View.Add, Placed, Without, FirstUnparented, ParentedFirst, Distinct;
    var s := v.Kids(v.root);
    AddToRoot(v, owner, n);
    MoveWithinRoot(v.Add(owner, v.root, n), n, FirstUnparented(s + [n], parented));
    MoveWithinRoot(v, n, FirstUnparented(s, parented));
    if n !in s {
      LastKeepsOrder(s, n, parented);
    }
    if n in v.up {
      var w := v.Move(n, v.root, -1);
      MoveWithinRoot(v, n, -1);
      MoveWithinRoot(w, n, FirstUnparented(w.Kids(w.root), parented));
      WithoutKeepsOrder(s, n, orphan, parented);
      PlacedLast(Without(s, n), n);
      LastKeepsOrder(Without(s, n), n, parented);
    }
  }

  lemma PlacedLast(s: seq<Node>, n: Node)
    ensures Placed(s, n, -1) == s + [n]
  {
  }

  lemma KidsInNodes(v: View, depth: map<Node, nat>)
    requires v.Ok(depth)
    ensures forall n :: n in v.up ==> n in v.nodes
  {
    NotLinked(v.nodes, v.up, v.kids, v.root);
  }

  lemma RemovedOrder(s: seq<Node>, i: nat, parented: set<Node>)
    requires ParentedFirst(s, parented) && i < |s|
    ensures ParentedFirst(RemoveAt(s, i), parented)
  {
    var t := RemoveAt(s, i);
    forall a, b | 0 <= a < b < |t| && t[b] in parented ensures t[a] in parented {
      assert t[a] == s[if a < i then a else a + 1] && t[b] == s[if b < i then b else b + 1];
    }
  }

  lemma SomeUnparented(t: seq<Node>, orphan: Node, parented: set<Node>)
    requires orphan in t && orphan !in parented
    ensures FirstUnparented(t, parented) < |t|
  {
    var o :| 0 <= o < |t| && t[o] == orphan;
    var k := FirstUnparented(t, parented);
    hide FirstUnparented;
    assert k <= o;
  }

  lemma WithoutKeepsOrder(s: seq<Node>, x: Node, orphan: Node, parented: set<Node>)
    requires Distinct(s) && ParentedFirst(s, parented) && orphan in s && orphan !in parented && x in parented
    ensures var t := Without(s, x); Distinct(t) && ParentedFirst(t, parented) && FirstUnparented(t, parented) < |t| && x !in t
  {
    WithoutDistinct(s, x);
    if x in s {
      WithoutAt(s, x);
      RemovedOrder(s, IndexOf(s, x), parented);
    }
    hide IndexOf, FirstUnparented, ParentedFirst, Distinct;
    SomeUnparented(Without(s, x), orphan, parented);
  }
}
