/** The configuration hierarchy as values (ecos/host/libcdl/base.cxx): what each operation of
    the toplevel does to the parent links, contents, owners, name table and loadables, and the
    invariants all of them keep. */
module HierarchyView {
  import opened Common
  import opened ParentMap
  import opened NodeLists

  datatype Kind = Plain | Container | Loadable | Root

  /** A node of the hierarchy; id is its identity, the address of the object. */
  datatype Node = Node(id: nat, name: string, kind: Kind)

  /** Every node added and not yet deleted, with what its fields hold: its parent (up) and
      contents (kids), its owner (own) and owned nodes, whether it has a toplevel (attached),
      and, for a removed loadable, the places to put it back (spots); besides, the toplevel's
      name table and loadables.  A node without an entry in up, own or spots has a null pointer
      (or -1) there. */
  datatype View = View(root: Node, nodes: set<Node>, up: map<Node, Node>, kids: map<Node, seq<Node>>,
                       own: map<Node, Node>, owned: map<Node, seq<Node>>, attached: set<Node>,
                       table: map<string, Node>, loadables: seq<Node>, spots: map<Node, (int, int)>)
  {
    // -------------------------------------------------------------- invariants

    /** The table holds exactly the attached nodes; each of them has a parent. */
    ghost predicate IndexOk() {
      && attached <= nodes && attached <= up.Keys
      && (forall n :: n in attached ==> n.name in table && table[n.name] == n)
      && (forall s :: s in table ==> table[s] in attached && table[s].name == s)
    }

    ghost predicate LoadablesOk() {
      && Distinct(loadables)
      && (forall n :: n in loadables ==> n in attached && n.kind == Loadable)
      && (forall n :: n in attached && n.kind == Loadable ==> n in loadables)
      && (forall n :: n in nodes && n.kind == Loadable ==> n in own && own[n] == n)
      && (forall n :: n in own ==> own[n].kind == Loadable)
      && (forall n :: n in spots ==> n in nodes && n.kind == Loadable && n !in attached && n !in up)
    }

    ghost predicate KindsOk() {
      && root in nodes && root !in up && root !in own && root !in attached
      && (forall n :: n in nodes ==> (n.kind == Root <==> n == root))
      && (forall n :: n in up ==> up[n].kind != Plain)
      && (forall n :: n in nodes && n !in up ==> n == root || n.kind == Loadable)
    }

    ghost predicate Ok(depth: map<Node, nat>) {
      && Mirror(nodes, up, kids) && Mirror(nodes, own, owned)
      && Ranked(up, depth) && depth.Keys == nodes
      && IndexOk() && LoadablesOk() && KindsOk()
    }

    // -------------------------------------------------------------- operations

    ghost function Kids(n: Node): seq<Node> { if n in kids then kids[n] else [] }

    ghost function Owns(n: Node): seq<Node> { if n in owned then owned[n] else [] }

    /** The contents with n taken out of its parent's. */
    ghost function KidsWithout(n: Node): map<Node, seq<Node>> {
      if n in up then kids[up[n] := Without(Kids(up[n]), n)] else kids
    }

    ghost function OwnedWithout(n: Node): map<Node, seq<Node>> {
      if n in own then owned[own[n] := Without(Owns(own[n]), n)] else owned
    }

    /** add_node */
    ghost function Add(owner: Option<Node>, p: Node, n: Node): View {
      this.(nodes := nodes + {n}, up := up[n := p], kids := kids[n := []][p := Kids(p) + [n]],
            own := if owner.None? then own else own[n := owner.value],
            owned := if owner.None? then owned[n := []]
                     else owned[n := []][owner.value := (if owner.value == n then [] else Owns(owner.value)) + [n]],
            attached := attached + {n}, table := table[n.name := n],
            loadables := if n.kind == Loadable then loadables + [n] else loadables)
    }

    /** change_parent */
    ghost function Move(n: Node, p: Node, pos: int): View {
      this.(up := up[n := p], kids := KidsWithout(n)[p := Placed(Without(Kids(p), n), n, pos)])
    }

    /** remove_node_from_toplevel */
    ghost function Detach(n: Node): View {
      var v := this.(attached := attached - {n}, table := table - {n.name});
      if n.kind != Loadable then v
      else v.(up := up - {n}, kids := kids[root := Without(Kids(root), n)], loadables := Without(loadables, n),
              spots := spots[n := (IndexOf(Kids(root), n), IndexOf(loadables, n))])
    }

    /** The remembered places of a removed loadable still exist. */
    ghost predicate CanReturn(n: Node) {
      n in spots && 0 <= spots[n].0 <= |Kids(root)| && 0 <= spots[n].1 <= |loadables|
    }

    /** add_node_to_toplevel */
    ghost function Attach(n: Node): View {
      var v := this.(attached := attached + {n}, table := table[n.name := n]);
      if n.kind != Loadable || n !in spots then v
      else v.(up := up[n := root], kids := kids[root := Placed(Kids(root), n, spots[n].0)],
              loadables := Placed(loadables, n, spots[n].1), spots := spots - {n})
    }

    /** remove_node, followed by the deletion of the node */
    ghost function Delete(n: Node): View {
      this.(nodes := nodes - {n}, up := up - {n}, own := own - {n},
            kids := KidsWithout(n) - {n}, owned := OwnedWithout(n) - {n}, spots := spots - {n})
    }
  }

  // ---------------------------------------------------------------- the operations keep the invariants

  lemma RankNew(nodes: set<Node>, up: map<Node, Node>, depth: map<Node, nat>, n: Node, p: Node)
    requires Ranked(up, depth) && depth.Keys == nodes && up.Keys <= nodes && n !in nodes && p in nodes
    ensures Ranked(up[n := p], depth[n := depth[p] + 1])
  {
  }

  lemma AddIndexOk(v: View, owner: Option<Node>, p: Node, n: Node)
    requires v.IndexOk() && n !in v.nodes && n.name !in v.table
    ensures v.Add(owner, p, n).IndexOk()
  {
  }

  lemma AddLoadablesOk(v: View, owner: Option<Node>, p: Node, n: Node)
    requires v.LoadablesOk() && v.attached <= v.nodes && v.own.Keys <= v.nodes
    requires n !in v.nodes
    requires if n.kind == Loadable then owner == Some(n) else owner.None? || owner.value.kind == Loadable
    ensures v.Add(owner, p, n).LoadablesOk()
  {
    hide Distinct;
    if n.kind == Loadable {
      AppendDistinct(v.loadables, n);
    }
  }

  lemma AddKindsOk(v: View, owner: Option<Node>, p: Node, n: Node)
    requires v.KindsOk() && v.up.Keys <= v.nodes
    requires n !in v.nodes
    requires n.kind != Root && p.kind != Plain
    ensures v.Add(owner, p, n).KindsOk()
  {
  }

  lemma AddOwnersOk(v: View, owner: Option<Node>, p: Node, n: Node)
    requires Mirror(v.nodes, v.own, v.owned) && n !in v.nodes
    requires owner.Some? && owner.value != n ==> owner.value in v.nodes
    ensures var w := v.Add(owner, p, n); Mirror(w.nodes, w.own, w.owned)
  {
    hide Mirror;
    MirrorNew(v.nodes, v.own, v.owned, n);
    if owner.Some? {
      var o := owner.value;
      var owned' := v.owned[n := []];
      NotLinked(v.nodes, v.own, v.owned, n);
      MirrorAppend(v.nodes + {n}, v.own, owned', n, o);
    }
  }

  lemma NotLinked<N>(nodes: set<N>, link: map<N, N>, lists: map<N, seq<N>>, n: N)
    requires Mirror(nodes, link, lists)
    ensures lists.Keys == nodes && link.Keys <= nodes
    ensures n in link ==> link[n] in nodes && n in lists[link[n]]
  {
  }

  lemma MirrorAppend<N>(nodes: set<N>, link: map<N, N>, lists: map<N, seq<N>>, n: N, p: N)
    requires Mirror(nodes, link, lists) && n in nodes && p in nodes && n !in link && p in lists
    ensures Mirror(nodes, link[n := p], lists[p := lists[p] + [n]])
  {
    hide Mirror;
    NotLinked(nodes, link, lists, n);
    MirrorLink(nodes, link, lists, n, p, |lists[p]|);
    assert InsertAt(lists[p], |lists[p]|, n) == lists[p] + [n];
  }

  lemma AddOk(v: View, depth: map<Node, nat>, owner: Option<Node>, p: Node, n: Node)
    requires v.Ok(depth) && n !in v.nodes && n.kind != Root && n.name !in v.table && p in v.nodes && p.kind != Plain
    requires if n.kind == Loadable then owner == Some(n) else owner.None? || (owner.value in v.nodes && owner.value.kind == Loadable)
    ensures p in depth && v.Add(owner, p, n).Ok(depth[n := depth[p] + 1])
  {
    hide Mirror, Ranked, View.LoadablesOk, View.KindsOk;
    NotLinked(v.nodes, v.up, v.kids, n);
    NotLinked(v.nodes, v.own, v.owned, n);
    MirrorNew(v.nodes, v.up, v.kids, n);
    MirrorAppend(v.nodes + {n}, v.up, v.kids[n := []], n, p);
    RankNew(v.nodes, v.up, depth, n, p);
    AddOwnersOk(v, owner, p, n);
    AddIndexOk(v, owner, p, n);
    AddLoadablesOk(v, owner, p, n);
    AddKindsOk(v, owner, p, n);
  }

  lemma MirrorMove<N>(nodes: set<N>, link: map<N, N>, lists: map<N, seq<N>>, n: N, p: N, pos: int)
    requires Mirror(nodes, link, lists) && n in link && p in nodes && p in lists
    ensures link[n] in lists
    ensures var cut := lists[link[n] := Without(lists[link[n]], n)];
      && cut[p] == Without(lists[p], n)
      && Mirror(nodes, link[n := p], cut[p := Placed(cut[p], n, pos)])
  {
    hide Mirror;
    NotLinked(nodes, link, lists, n);
    MirrorCut(nodes, link, lists, n);
    var cut := lists[link[n] := Without(lists[link[n]], n)];
    OnlyInItsList(nodes, link, lists, n, p);
    if 0 <= pos <= |cut[p]| {
      MirrorLink(nodes, link - {n}, cut, n, p, pos);
    } else {
      MirrorAppend(nodes, link - {n}, cut, n, p);
    }
    assert (link - {n})[n := p] == link[n := p];
  }

  lemma OnlyInItsList<N>(nodes: set<N>, link: map<N, N>, lists: map<N, seq<N>>, n: N, p: N)
    requires Mirror(nodes, link, lists) && n in link && p in nodes
    ensures n in lists[p] <==> link[n] == p
  {
  }

  lemma MoveIndexOk(v: View, n: Node, p: Node, pos: int)
    requires v.IndexOk() && n in v.up
    ensures v.Move(n, p, pos).IndexOk()
  {
  }

  lemma MoveKindsOk(v: View, n: Node, p: Node, pos: int)
    requires v.KindsOk() && v.LoadablesOk() && n in v.up && p.kind != Plain
    ensures v.Move(n, p, pos).KindsOk() && v.Move(n, p, pos).LoadablesOk()
  {
    hide Distinct;
  }

  lemma MoveOk(v: View, depth: map<Node, nat>, n: Node, p: Node, pos: int) returns (depth': map<Node, nat>)
    requires v.Ok(depth) && n in v.up && p in v.nodes && p.kind != Plain && p != n && !Below(v.up, p, n)
    ensures v.Move(n, p, pos).Ok(depth')
  {
    hide Mirror, Ranked, View.LoadablesOk, View.KindsOk, View.IndexOk, Below;
    NotLinked(v.nodes, v.up, v.kids, n);
    MirrorMove(v.nodes, v.up, v.kids, n, p, pos);
    MoveIndexOk(v, n, p, pos);
    MoveKindsOk(v, n, p, pos);
    depth' := MoveRanked(v.up, depth, n, p);
  }

  lemma DetachIndexOk(v: View, n: Node)
    requires v.IndexOk() && n in v.attached
    ensures v.Detach(n).IndexOk()
  {
  }

  lemma DetachLoadablesOk(v: View, n: Node)
    requires v.LoadablesOk() && n in v.attached && v.attached <= v.nodes
    ensures v.Detach(n).LoadablesOk()
  {
    hide Distinct;
    WithoutDistinct(v.loadables, n);
  }

  lemma DetachKindsOk(v: View, n: Node)
    requires v.KindsOk() && n in v.attached
    ensures v.Detach(n).KindsOk()
  {
  }

  /** A loadable is listed among the loadables, and in the root's contents when it is there. */
  lemma IsListed(v: View, depth: map<Node, nat>, n: Node)
    requires v.Ok(depth) && n in v.attached
    ensures n in v.up && v.root in v.kids && (v.up[n] == v.root ==> n in v.kids[v.root])
    ensures n.kind == Loadable ==> n in v.loadables
  {
  }

  lemma DetachOk(v: View, depth: map<Node, nat>, n: Node)
    requires v.Ok(depth) && n in v.attached && (n.kind == Loadable ==> n in v.up && v.up[n] == v.root)
    ensures v.Detach(n).Ok(depth)
  {
    hide Mirror, Ranked, View.LoadablesOk, View.KindsOk;
    IsListed(v, depth, n);
    DetachIndexOk(v, n);
    DetachLoadablesOk(v, n);
    DetachKindsOk(v, n);
    if n.kind == Loadable {
      MirrorCut(v.nodes, v.up, v.kids, n);
      CutRanked(v.up, depth, {n});
    }
  }

  lemma AttachIndexOk(v: View, n: Node)
    requires v.IndexOk() && n in v.nodes && n.name !in v.table && (n.kind == Loadable ==> v.CanReturn(n))
    requires n.kind != Loadable ==> n in v.up
    ensures v.Attach(n).IndexOk()
  {
  }

  lemma AttachLoadablesOk(v: View, n: Node)
    requires v.LoadablesOk() && n in v.nodes && n !in v.attached && (n.kind == Loadable ==> v.CanReturn(n))
    ensures v.Attach(n).LoadablesOk()
  {
    hide Distinct;
    if n.kind == Loadable {
      InsertAtDistinct(v.loadables, v.spots[n].1, n);
    }
  }

  lemma AttachKindsOk(v: View, n: Node)
    requires v.KindsOk() && n in v.nodes && n != v.root && (n.kind == Loadable ==> v.CanReturn(n))
    ensures v.Attach(n).KindsOk()
    ensures n.kind != Loadable ==> n in v.up
    ensures v.root in v.nodes && v.root !in v.up
  {
  }

  lemma AttachOk(v: View, depth: map<Node, nat>, n: Node) returns (depth': map<Node, nat>)
    requires v.Ok(depth) && n in v.nodes && n !in v.attached && n != v.root && n.name !in v.table
    requires n.kind == Loadable ==> v.CanReturn(n)
    ensures v.Attach(n).Ok(depth')
  {
    hide Mirror, Ranked, View.KindsOk, View.IndexOk, Below, Distinct;
    AttachKindsOk(v, n);
    AttachIndexOk(v, n);
    AttachLoadablesOk(v, n);
    depth' := depth;
    NotLinked(v.nodes, v.up, v.kids, n);
    if n.kind == Loadable {
      MirrorLink(v.nodes, v.up, v.kids, n, v.root, v.spots[n].0);
      BelowStep(v.up, v.root, n);
      depth' := MoveRanked(v.up, depth, n, v.root);
    }
  }

  /** Everything the view speaks of is one of its nodes. */
  lemma Domains(v: View, depth: map<Node, nat>)
    requires v.Ok(depth)
    ensures v.kids.Keys == v.nodes && v.owned.Keys == v.nodes && v.up.Keys <= v.nodes && v.own.Keys <= v.nodes
    ensures v.attached <= v.nodes && v.attached <= v.up.Keys && v.spots.Keys <= v.nodes && v.spots.Keys !! v.attached
    ensures depth.Keys == v.nodes && v.root in v.nodes && v.root !in v.up
    ensures forall n :: n in v.up ==> v.up[n] in v.nodes && n in v.kids[v.up[n]]
    ensures forall n :: n in v.own ==> v.own[n] in v.nodes && n in v.owned[v.own[n]]
  {
    NotLinked(v.nodes, v.up, v.kids, v.root);
    NotLinked(v.nodes, v.own, v.owned, v.root);
  }

  lemma DeleteIndexOk(v: View, n: Node)
    requires v.IndexOk() && n !in v.attached
    ensures v.Delete(n).IndexOk()
  {
  }

  lemma DeleteKindsOk(v: View, n: Node)
    requires v.KindsOk() && v.LoadablesOk() && n !in v.attached && n != v.root
    ensures v.Delete(n).KindsOk() && v.Delete(n).LoadablesOk()
  {
    hide Distinct;
  }

  lemma MirrorDelete<N>(nodes: set<N>, link: map<N, N>, lists: map<N, seq<N>>, n: N)
    requires Mirror(nodes, link, lists) && n in nodes && n in lists && (forall c :: c in lists[n] ==> c == n)
    ensures n in link ==> link[n] in lists
    ensures var lists' := if n in link then lists[link[n] := Without(lists[link[n]], n)] else lists;
      Mirror(nodes - {n}, link - {n}, lists' - {n})
  {
    hide Mirror;
    NotLinked(nodes, link, lists, n);
    if n in link {
      MirrorCut(nodes, link, lists, n);
      EmptyUnlessSelf(nodes, link, lists, n);
      MirrorDrop(nodes, link - {n}, lists[link[n] := Without(lists[link[n]], n)], n);
    } else {
      EmptyUnlessSelf(nodes, link, lists, n);
      MirrorDrop(nodes, link, lists, n);
    }
    assert link - {n} - {n} == link - {n};
    assert n !in link ==> link - {n} == link;
  }

  lemma AnotherOne<N>(s: seq<N>, n: N)
    requires Distinct(s)
    ensures |s| > 1 ==> exists c :: c in s && c != n
  {
    if |s| > 1 {
      assert s[0] in s && s[1] in s && s[0] != s[1];
    }
  }

  lemma EmptyUnlessSelf<N>(nodes: set<N>, link: map<N, N>, lists: map<N, seq<N>>, n: N)
    requires Mirror(nodes, link, lists) && n in nodes && (forall c :: c in lists[n] ==> c == n)
    ensures n !in link || link[n] != n ==> lists[n] == []
    ensures n in link && link[n] == n ==> Without(lists[n], n) == []
  {
    var s := lists[n];
    AnotherOne(s, n);
    if s != [] {
      assert s[0] in s;
      assert s == [n];
    }
  }

  lemma DeleteOk(v: View, depth: map<Node, nat>, n: Node)
    requires v.Ok(depth) && n in v.nodes && n !in v.attached && n != v.root
    requires v.Kids(n) == []
    requires forall c :: c in v.Owns(n) ==> c == n
    ensures v.Delete(n).Ok(depth - {n})
  {
    hide Mirror, Ranked, View.KindsOk, View.IndexOk, View.LoadablesOk;
    NotLinked(v.nodes, v.up, v.kids, n);
    NotLinked(v.nodes, v.own, v.owned, n);
    assert v.Owns(n) == v.owned[n];
    MirrorDelete(v.nodes, v.up, v.kids, n);
    MirrorDelete(v.nodes, v.own, v.owned, n);
    DeleteIndexOk(v, n);
    DeleteKindsOk(v, n);
    DeleteRanked(v, depth, n);
  }

  lemma DeleteRanked(v: View, depth: map<Node, nat>, n: Node)
    requires Ranked(v.up, depth) && Mirror(v.nodes, v.up, v.kids) && n in v.nodes && v.kids[n] == []
    ensures Ranked(v.up - {n}, depth - {n})
  {
  }

  // ---------------------------------------------------------------- the orphans container

  /** The orphans container, once created, stays directly below the toplevel; nothing owns it. */
  ghost predicate OrphansOk(v: View, orphans: Option<Node>) {
    orphans.Some? ==>
      orphans.value in v.nodes && orphans.value.kind == Container && orphans.value in v.up && v.up[orphans.value] == v.root && orphans.value !in v.own
  }

  lemma AddOrphansOk(v: View, depth: map<Node, nat>, orphans: Option<Node>, owner: Option<Node>, p: Node, n: Node)
    requires v.Ok(depth) && OrphansOk(v, orphans) && n !in v.nodes
    ensures OrphansOk(v.Add(owner, p, n), orphans)
    ensures orphans.Some? ==> orphans.value in v.nodes && orphans.value.kind != Plain
  {
  }

  function Start(top: Node): View {
    View(top, {top}, map[], map[top := []], map[], map[top := []], {}, map[], [], map[])
  }

  lemma StartOk(top: Node)
    requires top.kind == Root
    ensures Start(top).Ok(map[top := 0]) && OrphansOk(Start(top), None)
  {
  }

  /** The maps add_node writes to have the entries it expects. */
  lemma AddPlaces(v: View, depth: map<Node, nat>, owner: Option<Node>, p: Node, n: Node)
    requires v.Ok(depth) && n !in v.nodes && p in v.nodes && (owner.Some? && owner.value != n ==> owner.value in v.nodes)
    ensures p in depth && p in v.kids && p != n && (owner.Some? && owner.value != n ==> owner.value in v.owned)
    ensures v.kids[n := []][p] == v.kids[p]
    ensures var w := v.Add(owner, p, n);
      && w.root == v.root && w.nodes == v.nodes + {n} && w.up == v.up[n := p] && w.kids == v.kids[n := []][p := v.kids[p] + [n]]
      && w.own == (if owner.None? then v.own else v.own[n := owner.value])
      && w.owned == (if owner.None? then v.owned[n := []]
                     else v.owned[n := []][owner.value := v.owned[n := []][owner.value] + [n]])
      && w.attached == v.attached + {n} && w.table == v.table[n.name := n] && w.spots == v.spots
      && w.loadables == (if n.kind == Loadable then v.loadables + [n] else v.loadables)
  {
    hide Ranked, View.LoadablesOk, View.KindsOk, View.IndexOk, Mirror;
    NotLinked(v.nodes, v.up, v.kids, p);
    NotLinked(v.nodes, v.own, v.owned, p);
  }

  lemma MoveOrphansOk(v: View, depth: map<Node, nat>, orphans: Option<Node>, n: Node, p: Node, pos: int)
    requires v.Ok(depth) && OrphansOk(v, orphans) && Some(n) != orphans
    ensures OrphansOk(v.Move(n, p, pos), orphans)
  {
  }

  /** The two vectors change_parent writes to, one after the other. */
  lemma MovePlaces(v: View, depth: map<Node, nat>, n: Node, p: Node, pos: int)
    requires v.Ok(depth) && n in v.up && p in v.nodes
    ensures v.up[n] in v.kids && p in v.kids && n in v.kids[v.up[n]]
    ensures var cut := v.kids[v.up[n] := Without(v.kids[v.up[n]], n)]; var w := v.Move(n, p, pos);
      && cut[p] == Without(v.kids[p], n)
      && w == v.(up := v.up[n := p], kids := cut[p := Placed(cut[p], n, pos)])
  {
    hide Ranked, View.LoadablesOk, View.KindsOk, View.IndexOk, Mirror;
    NotLinked(v.nodes, v.up, v.kids, n);
    MirrorMove(v.nodes, v.up, v.kids, n, p, pos);
  }

  lemma CutThenLink<N>(link: map<N, N>, n: N, p: N)
    ensures (link - {n})[n := p] == link[n := p]
  {
  }

  lemma DetachOrphansOk(v: View, orphans: Option<Node>, n: Node)
    requires OrphansOk(v, orphans)
    ensures OrphansOk(v.Detach(n), orphans)
  {
  }

  lemma AttachOrphansOk(v: View, orphans: Option<Node>, n: Node)
    requires OrphansOk(v, orphans)
    ensures OrphansOk(v.Attach(n), orphans)
  {
  }

  lemma DeleteOrphansOk(v: View, depth: map<Node, nat>, orphans: Option<Node>, n: Node)
    requires v.Ok(depth) && OrphansOk(v, orphans) && Some(n) != orphans
    ensures OrphansOk(v.Delete(n), orphans)
  {
  }

  /** The vectors remove_node erases from. */
  lemma DeletePlaces(v: View, depth: map<Node, nat>, n: Node)
    requires v.Ok(depth) && n in v.nodes
    ensures n in v.own ==> v.own[n] in v.owned && n in v.owned[v.own[n]]
    ensures n in v.up ==> v.up[n] in v.kids && n in v.kids[v.up[n]]
    ensures v.OwnedWithout(n) == (if n in v.own then v.owned[v.own[n] := Without(v.owned[v.own[n]], n)] else v.owned)
    ensures v.KidsWithout(n) == (if n in v.up then v.kids[v.up[n] := Without(v.kids[v.up[n]], n)] else v.kids)
  {
    hide Ranked, View.LoadablesOk, View.KindsOk, View.IndexOk, Mirror;
    NotLinked(v.nodes, v.up, v.kids, n);
    NotLinked(v.nodes, v.own, v.owned, n);
  }

  lemma StartAdded(top: Node, o: Node)
    requires top != o && o.kind == Container
    ensures var w := Start(top).Add(None, top, o);
      && w.root == top && w.nodes == {top, o} && w.kids == map[top := [o], o := []] && w.own == map[] && w.loadables == []
      && w.up == map[o := top] && w.table == map[o.name := o] && w.attached == {o}
  {
    var v := Start(top);
    assert v.Kids(top) + [o] == [o];
  }

  lemma WithoutAt<T>(s: seq<T>, x: T)
    requires x in s
    ensures Without(s, x) == RemoveAt(s, IndexOf(s, x))
  {
  }

  lemma RootListed(v: View, depth: map<Node, nat>)
    requires v.Ok(depth)
    ensures v.root in v.kids && v.Kids(v.root) == v.kids[v.root]
  {
  }

  lemma AbsentKey<K, V>(m: map<K, V>, k: K)
    ensures k !in m ==> m - {k} == m
  {
  }
}
