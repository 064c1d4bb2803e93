/** The toplevel of a configuration (ecos/host/libcdl/base.cxx, CdlToplevelBody): the operations
    that change the hierarchy.  Each is proved to do to the state, step by step, what the
    operation of the same name in HierarchyView says, and so to keep the hierarchy a tree below
    the toplevel with all its redundant parts in step. */
module Hierarchy {
  import opened Common
  import opened ParentMap
  import opened NodeLists
  import opened HierarchyView
  import opened HierarchyLaws
  import opened HierarchyUnload
  import opened HierarchyCancel

  datatype Change = ValueChange | ActiveChange | Init | Unloading | Loaded | Created | Destroyed

  /** NotAContainer and WouldCycle stand for the data conflicts that are reported. */
  datatype Outcome = Ignored | Reparented | NotAContainer | WouldCycle

  class Toplevel {
    var orphans: Option<Node>
    /** The fields of the toplevel and of all its nodes. */
    var state: View
    /** A witness that there is no cycle. */
    ghost var depth: map<Node, nat>

    ghost predicate Valid()
      reads this
    {
      state.Ok(depth) && OrphansOk(state, orphans)
    }

    /** A toplevel has an orphans container below it from the start. */
    constructor (top: Node, orphanage: Node)
      requires top.kind == Root && orphanage.kind == Container && orphanage.name == "orphans"
      ensures Valid() && state.root == top && orphans == Some(orphanage) && state.nodes == {top, orphanage}
      ensures state.kids == map[top := [orphanage], orphanage := []] && state.table == map["orphans" := orphanage]
      ensures state.own == map[] && state.loadables == [] && state.attached == {orphanage}
    {
      orphans := None;
      state, depth := Start(top), map[top := 0];
      new;
      hide View.Ok, View.Add;
      StartOk(top);
      StartAdded(top, orphanage);
      AddNode(None, Some(top), orphanage);
      orphans := Some(orphanage);
    }

    /** add_node: a new node below parent, or below the orphans container if that is null. */
    method AddNode(owner: Option<Node>, parent: Option<Node>, node: Node)
      requires Valid() && node !in state.nodes && node.kind != Root && node.name !in state.table
      requires if node.kind == Loadable then owner == Some(node)
               else owner.None? || (owner.value in state.nodes && owner.value.kind == Loadable)
      requires parent.None? ==> orphans.Some?
      requires parent.Some? ==> parent.value in state.nodes && parent.value.kind != Plain
      modifies this
      ensures Valid() && orphans == old(orphans)
      ensures state == old(state).Add(owner, if parent.None? then orphans.value else parent.value, node)
    {
      hide View.Ok, OrphansOk, View.Add;
      ghost var v, d := state, depth;
      var p := if parent.None? then orphans.value else parent.value;
      AddOrphansOk(v, d, orphans, owner, p, node);
      AddOk(v, d, owner, p, node);
      AddPlaces(v, d, owner, p, node);
      state := state.(nodes := state.nodes + {node}, kids := state.kids[node := []], owned := state.owned[node := []]);
      state := state.(attached := state.attached + {node}, table := state.table[node.name := node]);
      if owner.Some? {
        state := state.(own := state.own[node := owner.value],
                        owned := state.owned[owner.value := state.owned[owner.value] + [node]]);
      }
      if node.kind == Loadable {
        state := state.(loadables := state.loadables + [node]);
      }
      state := state.(up := state.up[node := p], kids := state.kids[p := state.kids[p] + [node]]);
      depth := depth[node := depth[p] + 1];
      assert state == v.Add(owner, p, node);
    }

    /** change_parent: node taken out of its parent's contents and put below another parent, or
        below the orphans container if that is null, last or at a given position. */
    method ChangeParent(parent: Option<Node>, node: Node, pos: int)
      requires Valid() && node in state.attached && Some(node) != orphans && (parent.None? ==> orphans.Some?)
      requires var p := if parent.None? then orphans.value else parent.value;
        && p in state.nodes && p.kind != Plain && p != node && !Below(state.up, p, node)
        && -1 <= pos <= |Without(state.Kids(p), node)|
      modifies this
      ensures Valid() && orphans == old(orphans)
      ensures state == old(state).Move(node, if parent.None? then orphans.value else parent.value, pos)
    {
      hide View.Ok, OrphansOk, View.Move, Below, InsertAt, Without;
      ghost var v, d := state, depth;
      var p := if parent.None? then orphans.value else parent.value;
      IsListed(v, d, node);
      MoveOrphansOk(v, d, orphans, node, p, pos);
      MovePlaces(v, d, node, p, pos);
      depth := MoveOk(v, d, node, p, pos);
      var q := state.up[node];
      state := state.(up := state.up - {node}, kids := state.kids[q := Without(state.kids[q], node)]);
      if pos == -1 {
        state := state.(kids := state.kids[p := state.kids[p] + [node]]);
      } else {
        state := state.(kids := state.kids[p := InsertAt(state.kids[p], pos, node)]);
      }
      state := state.(up := state.up[node := p]);
      CutThenLink(v.up, node, p);
    }

    /** remove_node_from_toplevel: the first, reversible step of deleting a node. */
    method RemoveNodeFromToplevel(node: Node)
      requires Valid() && node in state.attached
      requires node.kind == Loadable ==> node in state.up && state.up[node] == state.root
      modifies this
      ensures Valid() && orphans == old(orphans) && depth == old(depth)
      ensures state == old(state).Detach(node)
    {
      hide View.Ok, OrphansOk, Without, IndexOf;
      ghost var v := state;
      IsListed(v, depth, node);
      DetachOk(v, depth, node);
      DetachOrphansOk(v, orphans, node);
      state := state.(attached := state.attached - {node}, table := state.table - {node.name});
      if node.kind == Loadable {
        var i := Position(state.kids[state.root], node);
        var container := i;
        state := state.(kids := state.kids[state.root := RemoveAt(state.kids[state.root], i)], up := state.up - {node});
        i := Position(state.loadables, node);
        state := state.(loadables := RemoveAt(state.loadables, i), spots := state.spots[node := (container, i)]);
        WithoutAt(v.kids[v.root], node);
        WithoutAt(v.loadables, node);
      }
    }

    /** add_node_to_toplevel: the undo step. */
    method AddNodeToToplevel(node: Node)
      requires Valid() && node in state.nodes && node !in state.attached && node != state.root
      requires node.name !in state.table && (node.kind == Loadable ==> state.CanReturn(node))
      modifies this
      ensures Valid() && orphans == old(orphans)
      ensures state == old(state).Attach(node)
    {
      hide View.Ok, OrphansOk, InsertAt;
      ghost var v := state;
      RootListed(v, depth);
      depth := AttachOk(v, depth, node);
      AttachOrphansOk(v, orphans, node);
      state := state.(attached := state.attached + {node}, table := state.table[node.name := node]);
      if node.kind == Loadable {
        state := state.(kids := state.kids[state.root := InsertAt(state.kids[state.root], state.spots[node].0, node)]);
        state := state.(up := state.up[node := state.root]);
        state := state.(loadables := InsertAt(state.loadables, state.spots[node].1, node), spots := state.spots - {node});
      }
    }

    /** remove_node and the deletion that follows it: the second, final step. */
    method RemoveNode(node: Node)
      requires Valid() && node in state.nodes && node !in state.attached && node != state.root && Some(node) != orphans
      requires state.Kids(node) == [] && (forall c :: c in state.Owns(node) ==> c == node)
      modifies this
      ensures Valid() && orphans == old(orphans) && depth == old(depth) - {node}
      ensures state == old(state).Delete(node)
    {
      hide View.Ok, OrphansOk, Without, View.KidsWithout, View.OwnedWithout;
      ghost var v := state;
      DeletePlaces(v, depth, node);
      DeleteOk(v, depth, node);
      DeleteOrphansOk(v, depth, orphans, node);
      if node in state.own {
        var o := state.own[node];
        state := state.(own := state.own - {node}, owned := state.owned[o := Without(state.owned[o], node)]);
      }
      if node in state.up {
        var p := state.up[node];
        state := state.(up := state.up - {node}, kids := state.kids[p := Without(state.kids[p], node)]);
      }
      state := state.(nodes := state.nodes - {node}, kids := state.kids - {node}, owned := state.owned - {node},
                      spots := state.spots - {node});
      depth := depth - {node};
      AbsentKey(v.own, node);
      AbsentKey(v.up, node);
    }

    /** remove_loadable_from_toplevel: what the loadable owns, from the back. */
    method RemoveLoadableFromToplevel(loadable: Node)
      requires Valid() && loadable in state.nodes && loadable.kind == Loadable
      requires loadable in state.attached ==> loadable in state.up && state.up[loadable] == state.root
      modifies this
      ensures Valid() && orphans == old(orphans) && depth == old(depth)
      ensures state == RemovedFrom(old(state), old(state.Owns(loadable)), 0)
    {
      hide View.Ok, OrphansOk, View.Detach;
      ghost var v, d := state, depth;
      OwnersOf(v, d, loadable);
      var nodes := state.owned[loadable];
      assert nodes == v.Owns(loadable);
      var i := |nodes|;
      while i > 0
        invariant 0 <= i <= |nodes| && Valid() && orphans == old(orphans) && depth == d
        invariant state == RemovedFrom(v, nodes, i)
      {
        i := i - 1;
        RemovedOk(v, d, nodes, i + 1);
        assert nodes[i] in nodes;
        if nodes[i] in state.attached {
          InTree(state, d, nodes[i]);
          RemoveNodeFromToplevel(nodes[i]);
        }
      }
    }

    /** add_loadable_to_toplevel: the same nodes put back, from the front. */
    method AddLoadableToToplevel(loadable: Node)
      requires Valid() && loadable in state.nodes && loadable.kind == Loadable && state.CanReturn(loadable)
      requires Returnable(state, state.Owns(loadable))
      modifies this
      ensures Valid() && orphans == old(orphans)
      ensures state == ReturnedTo(old(state), old(state.Owns(loadable)), |old(state.Owns(loadable))|)
    {
      hide View.Ok, OrphansOk, View.Attach, View.CanReturn;
      ghost var v := state;
      OwnersOf(v, depth, loadable);
      var nodes := state.owned[loadable];
      assert nodes == v.Owns(loadable);
      var i := 0;
      while i < |nodes|
        invariant 0 <= i <= |nodes| && Valid() && orphans == old(orphans)
        invariant state == ReturnedTo(v, nodes, i)
      {
        assert nodes[i] in nodes;
        ReturnNext(v, nodes, loadable, i);
        RootNotOwned(v, old(depth), loadable);
        AddNodeToToplevel(nodes[i]);
        i := i + 1;
      }
    }

    /** The Unloading updates of unbind: parented are the nodes with a parent property. */
    method Unload(loadable: Node, parented: set<Node>)
      requires Valid() && loadable in state.nodes && orphans.Some? && Unloadable(state, loadable, parented)
      modifies this
      ensures Valid() && orphans == old(orphans)
      ensures state == Unloaded(old(state), loadable, parented, old(state.Owns(loadable)), |old(state.Owns(loadable))|)
    {
      hide View.Ok, OrphansOk, View.Move, View.Owns, Below;
      ghost var v, d := state, depth;
      OwnersOf(v, d, loadable);
      OwnsListed(v, d, loadable);
      RootNotOwned(v, d, loadable);
      OrphansNotOwned(v, orphans, loadable, d);
      var nodes := state.owned[loadable];
      var i := 0;
      while i < |nodes|
        invariant 0 <= i <= |nodes| && Valid() && orphans == old(orphans)
        invariant state == Unloaded(v, loadable, parented, nodes, i)
      {
        var node := nodes[i];
        assert node in nodes;
        if node in parented {
          ghost var d' := UnloadedOk(v, d, loadable, parented, i);
          MoveHome(node, loadable);
        }
        i := i + 1;
      }
    }

    /** update_handler for an Unloading update. */
    method MoveHome(source: Node, owner: Node)
      requires Valid() && source in state.attached && Some(source) != orphans && orphans.Some?
      requires source in state.own && state.own[source] == owner && owner in state.nodes && owner.kind == Loadable
      requires if source.kind == Loadable then source == owner
               else source != owner && owner in state.up && state.up[owner] == state.root
      modifies this
      ensures Valid() && orphans == old(orphans)
      ensures state == old(state).Move(source, if source.kind == Loadable then old(state.root) else owner, -1)
    {
      hide View.Ok, OrphansOk, View.Move, Below;
      InNodes(state, depth, source);
      RootIsContainer(state, depth);
      NotBelowRoot(state, depth, source);
      if source.kind == Loadable {
        ChangeParent(Some(state.root), source, -1);
      } else {
        NotAboveTop(state, depth, owner, source);
        ChangeParent(Some(owner), source, -1);
      }
    }

    /** A parent property naming "": below the toplevel, ahead of any nodes that are not
        specifically re-parented. */
    method MoveToRoot(source: Node, parented: set<Node>)
      requires Valid() && source in state.attached && Some(source) != orphans && orphans.Some? && orphans.value !in parented
      modifies this
      ensures Valid() && orphans == old(orphans)
      ensures state == old(state).Move(source, old(state).root, FirstUnparented(old(state).Kids(old(state).root), parented))
    {
      hide View.Ok, View.Move, Below, FirstUnparented;
      InNodes(state, depth, source);
      RootIsContainer(state, depth);
      NotBelowRoot(state, depth, source);
      KidsListed(state, depth, state.root);
      ListedOwners(state.nodes, state.up, state.kids, state.root);
      var contents := state.kids[state.root];
      RootPlaceFits(contents, source, orphans.value, parented);
      var index := 0;
      while index < |contents| && contents[index] in parented
        invariant 0 <= index <= FirstUnparented(contents, parented)
      {
        index := index + 1;
      }
      ChangeParent(Some(state.root), source, index);
    }

    /** A parent property whose node is missing: below the orphans container. */
    method MoveToOrphans(source: Node)
      requires Valid() && source in state.attached && Some(source) != orphans && orphans.Some?
      modifies this
      ensures Valid() && orphans == old(orphans)
      ensures state == old(state).Move(source, orphans.value, -1)
    {
      hide View.Ok, View.Move, Below;
      InNodes(state, depth, source);
      NotAboveTop(state, depth, orphans.value, source);
      ChangeParent(None, source, -1);
    }

    /** A parent property whose node is there. */
    method MoveBelow(source: Node, dest: Node) returns (outcome: Outcome)
      requires Valid() && source in state.attached && Some(source) != orphans && dest in state.attached && dest != source
      modifies this
      ensures Valid() && orphans == old(orphans)
      ensures if dest.kind == Plain then outcome == NotAContainer && state == old(state)
        else if Below(old(state).up, dest, source) then outcome == WouldCycle && state == old(state)
        else outcome == Reparented && state == old(state).Move(source, dest, -1)
    {
      hide View.Ok, OrphansOk, View.Move, Below, InReach;
      InNodes(state, depth, source);
      InNodes(state, depth, dest);
      if dest.kind == Plain {
        return NotAContainer;
      }
      InReachIsBelow(state, source, dest);
      PlainIsEmpty(state, depth, source, dest);
      if source.kind != Plain {
        var below := Contains(source, dest, true);
        if below {
          return WouldCycle;
        }
      }
      ChangeParent(Some(dest), source, -1);
      outcome := Reparented;
    }

    /** update_handler for the parent property of source: dest is the node the property names, if
        it is there, and wanted the name itself; parented are the nodes with a parent property. */
    method Update(source: Node, dest: Option<Node>, wanted: string, parented: set<Node>, change: Change)
      returns (outcome: Outcome)
      requires Valid() && source in state.attached && Some(source) != orphans && orphans.Some? && orphans.value !in parented
      requires dest.Some? ==> dest.value in state.attached && dest.value != source
      requires change.Created? || change.Destroyed? ==> dest.Some?
      requires change.Unloading? ==>
        && source in state.own && state.own[source] in state.nodes && state.own[source].kind == Loadable
        && (source.kind == Loadable ==> source == state.own[source])
        && (source.kind != Loadable ==> state.own[source] in state.up && state.up[state.own[source]] == state.root)
      modifies this
      ensures Valid() && orphans == old(orphans)
      ensures change.ValueChange? || change.ActiveChange? || change.Init? ==> outcome == Ignored && state == old(state)
      ensures change.Unloading? ==>
        && outcome == Reparented
        && state == old(state).Move(source, if source.kind == Loadable then old(state).root else old(state).own[source], -1)
      ensures change.Destroyed? || ((change.Loaded? || change.Created?) && dest.None?) ==>
        && outcome == Reparented
        && state == if wanted == "" then old(state).Move(source, old(state).root,
                                                         FirstUnparented(old(state).Kids(old(state).root), parented))
                    else old(state).Move(source, orphans.value, -1)
      ensures (change.Loaded? || change.Created?) && dest.Some? ==>
        if dest.value.kind == Plain then outcome == NotAContainer && state == old(state)
        else if Below(old(state).up, dest.value, source) then outcome == WouldCycle && state == old(state)
        else outcome == Reparented && state == old(state).Move(source, dest.value, -1)
    {
      hide View.Ok, OrphansOk, View.Move, Below, FirstUnparented;
      if change.ValueChange? || change.ActiveChange? || change.Init? {
        return Ignored;
      }
      InNodes(state, depth, source);
      if change.Unloading? {
        MoveHome(source, state.own[source]);
        return Reparented;
      }
      if change.Destroyed? || dest.None? {
        if wanted == "" {
          MoveToRoot(source, parented);
        } else {
          MoveToOrphans(source);
        }
        return Reparented;
      }
      outcome := MoveBelow(source, dest.value);
    }

    /** The destructor of a loadable: everything it owns is deleted, from the back, each node
        empty by then; of owned only the loadable itself is left at the end. */
    method DestroyLoadable(loadable: Node)
      requires Valid() && Destroyable(state, loadable)
      modifies this
      ensures Valid() && orphans == old(orphans)
      ensures state == Gone(old(state), Elements(old(state.Owns(loadable))))
    {
      hide View.Ok, OrphansOk, View.Delete, View.Owns, InCreationOrder, Elements, View.Kids;
      ghost var v, d := state, depth;
      OwnersOf(v, d, loadable);
      ghost var s := v.Owns(loadable);
      RootNotOwned(v, d, loadable);
      DestroyOwned(loadable);
      OwnedNow(v, state, depth, loadable, 1);
      EmptyWhenDeleted(v, state, depth, loadable, 0);
      DeleteNext(v, state, depth, loadable, 0);
      DeleteOk(state, depth, loadable);
      DeleteOrphansOk(state, depth, orphans, loadable);
      DeleteItself(state, loadable);
      LastGone(s, 0);
      MinusMore(d, Elements(s[1..]), loadable);
      assert s[0..] == s;
      state := state.(own := state.own - {loadable}, owned := state.owned - {loadable}, kids := state.kids - {loadable},
                      nodes := state.nodes - {loadable}, spots := state.spots - {loadable});
      depth := depth - {loadable};
      AllDeleted(v, state, d, loadable);
    }

    /** The loop of the destructor, which passes over the loadable itself. */
    method DestroyOwned(loadable: Node)
      requires Valid() && Destroyable(state, loadable)
      modifies this
      ensures Valid() && orphans == old(orphans) && (orphans.Some? ==> orphans.value != loadable)
      ensures DeletedSoFar(old(state), state, old(state).Owns(loadable), loadable, 1)
      ensures depth == old(depth) - Elements(old(state).Owns(loadable)[1..])
    {
      hide View.Ok, OrphansOk, View.Delete, View.Owns, InCreationOrder, Elements, View.Kids;
      ghost var v, d := state, depth;
      OwnersOf(v, d, loadable);
      OwnsListed(v, d, loadable);
      RootNotOwned(v, d, loadable);
      OrphansNotOwned(v, orphans, loadable, d);
      ghost var s := v.Owns(loadable);
      NothingDeleted(v, d, loadable);
      ghost var left := |s|;
      var i := |state.owned[loadable]|;
      while i > 0
        invariant 0 <= i <= |s| && left == (if i == 0 then 1 else i) && Valid() && orphans == old(orphans)
        invariant depth == d - Elements(s[left..]) && DeletedSoFar(v, state, s, loadable, left)
      {
        i := i - 1;
        OwnedNow(v, state, depth, loadable, i + 1);
        var node := state.owned[loadable][i];
        assert node == s[i] && node in s;
        if node != loadable {
          EmptyWhenDeleted(v, state, depth, loadable, i);
          DeleteNext(v, state, depth, loadable, i);
          LastGone(s, i);
          MinusMore(d, Elements(s[i + 1..]), node);
          left := i;
          RemoveNode(node);
        }
      }
    }

    /** The Destroyed updates of unbind: the nodes whose parent properties name nodes of the
        loadable, in the order in which the references to it are dissolved. */
    method DissolveReferences(sources: seq<Node>)
      requires Valid() && orphans.Some? && Sources(state, orphans.value, sources)
      modifies this
      ensures Valid() && orphans == old(orphans)
      ensures state == Orphaned(old(state), orphans.value, sources, |sources|)
    {
      hide View.Ok, View.Move;
      ghost var v, d := state, depth;
      var i := 0;
      while i < |sources|
        invariant 0 <= i <= |sources| && Valid() && orphans == old(orphans)
        invariant state == Orphaned(v, orphans.value, sources, i)
      {
        ghost var d' := OrphanedOk(v, d, orphans.value, sources, i);
        assert sources[i] in sources;
        MoveToOrphans(sources[i]);
        i := i + 1;
      }
    }

    /** transaction_cancel_load: the loadable is unbound, removed and deleted.  What was
        re-parented below it goes back to the orphans; nothing else changes. */
    method CancelLoad(loadable: Node, sources: seq<Node>, parented: set<Node>)
      requires Valid() && loadable in state.nodes && orphans.Some?
      requires Cancellable(state, loadable, orphans.value, sources, parented)
      modifies this
      ensures Valid() && orphans == old(orphans)
      ensures Cancelled(old(state), state, Elements(old(state.Owns(loadable))), sources, orphans.value)
    {
      hide View.Ok, OrphansOk, View.Owns, InLoadOrder, InCreationOrder, SameRest, Gone, Elements, Cancelled, Unwound;
      ghost var a, d := state, depth;
      OrphansNotOwned(a, orphans, loadable, d);
      OrphanedIsUnloadable(a, d, loadable, orphans.value, sources, parented);
      hide Cancellable, Unloadable;
      DissolveReferences(sources);
      ghost var v, s := state, state.Owns(loadable);
      OrphanedNodes(a, orphans.value, sources, |sources|);
      UnloadedIsIsolated(v, depth, loadable, parented);
      FirstIsItself(v, loadable, parented);
      UnloadedRest(v, loadable, parented, s, |s|);
      InNodesAll(v, depth);
      Unload(loadable, parented);
      ghost var w := state;
      MoveKeepsOwns(v, w, s, loadable);
      RemovedIsDestroyable(w, depth, loadable);
      RemovedRest(w, s, 0);
      OwnersOf(w, depth, loadable);
      RemovedOkElements(w, depth, s);
      RemoveLoadableFromToplevel(loadable);
      ghost var u := state;
      SameRestTransitive(v, w, u, Elements(s));
      DestroyLoadable(loadable);
      GoneIsUnwound(v, u, depth, Elements(s));
      UnwoundIsCancelled(a, d, state, Elements(s), sources, orphans.value);
    }

    /** contains: whether node is in the container, or, recursing, anywhere below it. */
    method Contains(container: Node, node: Node, recurse: bool) returns (result: bool)
      requires Valid() && container in state.nodes
      ensures result <==> InReach(state, container, node, recurse)
      decreases Descendants(state, container)
    {
      hide View.Ok, OrphansOk, InReach, Descendants;
      result := false;
      ListsOf(state, depth, container);
      var contents := state.kids[container];
      var i := 0;
      while i < |contents|
        invariant 0 <= i <= |contents|
        invariant forall k :: 0 <= k < i ==> !IsOrBelow(state, contents[k], node, recurse)
      {
        var child := contents[i];
        ChildIsSmaller(state, depth, container, child);
        if node == child {
          ReachThroughChild(state, depth, container, node, recurse, child);
          return true;
        }
        if recurse && child.kind != Plain {
          var below := Contains(child, node, true);
          if below {
            ReachThroughChild(state, depth, container, node, recurse, child);
            return true;
          }
        }
        PlainIsEmpty(state, depth, child, node);
        i := i + 1;
      }
      NotReached(state, depth, container, node, recurse);
    }

    /** find_node: the node of a given name in the container, or anywhere below it. */
    method FindNode(container: Node, name: string, recurse: bool) returns (result: Option<Node>)
      requires Valid() && container in state.nodes
      ensures Finds(state, container, name, recurse, result)
      decreases Descendants(state, container)
    {
      hide View.Ok, OrphansOk, InReach, Descendants;
      result := None;
      ListsOf(state, depth, container);
      var contents := state.kids[container];
      var i := 0;
      while i < |contents|
        invariant 0 <= i <= |contents|
        invariant forall k, n :: 0 <= k < i && n in state.up && IsOrBelow(state, contents[k], n, recurse) ==> n.name != name
      {
        var child := contents[i];
        ChildIsSmaller(state, depth, container, child);
        if child.name == name {
          ReachThroughChild(state, depth, container, child, recurse, child);
          return Some(child);
        }
        if recurse && child.kind != Plain {
          result := FindNode(child, name, true);
          if result.Some? {
            ReachThroughChild(state, depth, container, result.value, recurse, child);
            return;
          }
        }
        forall n | n in state.up && IsOrBelow(state, child, n, recurse) ensures n.name != name {
          PlainIsEmpty(state, depth, child, n);
        }
        i := i + 1;
      }
      result := None;
      forall n | n in state.up && InReach(state, container, n, recurse) ensures n.name != name {
        if forall k :: 0 <= k < |contents| ==> !IsOrBelow(state, contents[k], n, recurse) {
          NotReached(state, depth, container, n, recurse);
        }
      }
    }

    /** lookup: the attached node of that name, of which there is at most one. */
    method Lookup(name: string) returns (found: Option<Node>)
      requires Valid()
      ensures found.Some? ==> found.value in state.attached && found.value.name == name
      ensures forall n :: n in state.attached && n.name == name ==> found == Some(n)
      ensures Settled(state) ==> Finds(state, state.root, name, true, found)
    {
      hide View.Ok;
      ListedAreNodes(state, depth);
      if Settled(state) {
        TableFinds(state, depth, name);
      }
      if name in state.table {
        found := Some(state.table[name]);
      } else {
        found := None;
      }
    }
  }

  /** The search loop of remove_node_from_toplevel. */
  method Position(s: seq<Node>, x: Node) returns (i: nat)
    requires x in s
    ensures i < |s| && i == IndexOf(s, x)
  {
    i := 0;
    while i < |s|
      invariant i <= IndexOf(s, x)
    {
      if s[i] == x {
        break;
      }
      i := i + 1;
    }
  }
}
