/** A transaction in place (ecos/host/libcdl/transact.cxx, base.cxx, value.cxx, interface.cxx):
    the methods that set flags and values, the update handlers, and the propagation loop, each
    proved to do what its counterpart on values says. */
module Transactions {
  import opened HierarchyView
  import opened HierarchyLaws
  import opened Propagation
  import opened Interfaces
  import opened Settling

  class Transaction {
    const net: Net
    ghost const depth: map<Node, nat>
    /** The nodes that are active as far as the enclosing transaction, or the node, knows. */
    const wasActive: set<Node>
    var activated: set<Node>
    var deactivated: set<Node>
    var values: map<Node, Value>
    var given: set<Node>
    var valueChanges: seq<Node>
    var activeChanges: seq<Node>

    function Active(): set<Node>
      reads this
    {
      wasActive - deactivated + activated
    }

    /** The state the fields stand for. */
    function Now(): State
      reads this
    {
      State(Active(), values, given, valueChanges, activeChanges)
    }

    /** Nothing is recorded both ways; kept even while interfaces are being recalculated. */
    ghost predicate Coherent()
      reads this
    {
      net.RefsOk() && activated !! deactivated
    }

    ghost predicate Valid()
      reads this
    {
      Coherent() && Counted(net, Now(), {})
    }

    /** The hierarchy around it is in order, too. */
    ghost predicate Ready()
      reads this
    {
      Valid() && net.Ok(depth) && Steady(net, Now())
    }

    constructor (net: Net, ghost depth: map<Node, nat>, active: set<Node>, values: map<Node, Value>, given: set<Node>)
      requires net.Ok(depth) && net.tree.root in active && net.tree.root !in values && values.Keys <= net.tree.nodes
      requires Counted(net, State(active, values, given, [], []), {})
      ensures Ready() && this.net == net && this.depth == depth && Now() == State(active, values, given, [], [])
    {
      hide View.Ok, Net.Local, Net.RefsOk, Counted, Steady;
      this.net, this.depth, wasActive, this.values, this.given := net, depth, active, values, given;
      activated, deactivated, valueChanges, activeChanges := {}, {}, [], [];
      new;
      assert Active() == active;
      StartSteady(net, active, values, given);
    }

    /** is_active */
    method IsActive(node: Node) returns (result: bool)
      requires Coherent()
      ensures result <==> node in Now().active
    {
      hide Net.RefsOk;
      if node in activated {
        result := true;
      } else if node in deactivated {
        result := false;
      } else {
        result := node in wasActive;
      }
    }

    // -------------------------------------------------------------- interfaces

    /** The count in recalculate. */
    method CountImplementers(interface: Node) returns (count: nat)
      requires Coherent()
      ensures count == Count(Now(), net.Implementers(interface)) == |Implementing(Now(), net.Implementers(interface))|
    {
      hide Net.RefsOk, Enabled;
      var implementers := net.Implementers(interface);
      count := 0;
      var j := 0;
      while j < |implementers|
        invariant 0 <= j <= |implementers| && count == Count(Now(), implementers[..j])
      {
        var n := implementers[j];
        assert implementers[..j + 1][..j] == implementers[..j];
        var active := IsActive(n);
        if active {
          if n in values && Enabled(values[n]) {
            count := count + 1;
          }
        }
        j := j + 1;
      }
      assert implementers[..|implementers|] == implementers;
      CountIsCardinality(Now(), implementers);
    }

    /** recalculate, while nodes begin to count (up) or cease to; open are the interfaces that
        may still become enabled, or disabled, by it. */
    method Recalculate(interface: Node, ghost up: bool, ghost open: set<Node>)
      requires Coherent() && net.Implementers(interface) != [] && Drifts(net, Now(), up, open)
      modifies this`values, this`valueChanges
      ensures Coherent() && Drifts(net, Now(), up, open) && Now() == Recalculated(net, old(Now()), [interface], open)
      decreases open, 1, 0
    {
      hide Net.RefsOk, Enabled, Net.Implementers, Net.Implemented, Count, WithValue, Drifts, Recalculated, Recount;
      ghost var s := Now();
      RecalculatedOne(net, s, interface, up, open);
      if interface in values && interface !in given {
        var count := CountImplementers(interface);
        var oldValue := values[interface];
        var newValue := oldValue;
        match oldValue {
          case Flavorless =>
          case Bool(on) =>
            var newBool := count > 0;
            if newBool != on {
              newValue := Bool(newBool);
            }
          case BoolData(_, data) =>
            if count != IntegerOf(data) {
              newValue := BoolData(count > 0, Number(count));
            }
          case Data(data) =>
            if count != IntegerOf(data) {
              newValue := Data(Number(count));
            }
        }
        RecountIs(oldValue, count);
        if newValue != oldValue {
          SetWholeValue(interface, newValue, if Enabled(newValue) != Enabled(oldValue) then open - {interface} else open);
          if Enabled(newValue) != Enabled(oldValue) {
            MoreOpen(net, Now(), up, open - {interface}, open);
          }
        } else {
          SameValueAgain(net, s, interface, open);
        }
      }
    }

    /** The loop over the interfaces a node implements. */
    method RecalculateAll(interfaces: seq<Node>, ghost up: bool, ghost open: set<Node>)
      requires Coherent() && AllInterfaces(net, interfaces) && Drifts(net, Now(), up, open)
      modifies this`values, this`valueChanges
      ensures Coherent() && Drifts(net, Now(), up, open) && Now() == Recalculated(net, old(Now()), interfaces, open)
      decreases open, 2, 0
    {
      hide Net.RefsOk, Net.Implementers, Recalculated, Drifts;
      ghost var s := Now();
      RecalculatedNone(net, s, open);
      var j := 0;
      while j < |interfaces|
        invariant 0 <= j <= |interfaces| && Coherent() && Drifts(net, Now(), up, open)
        invariant Now() == Recalculated(net, s, interfaces[..j], open)
      {
        RecalculatedNext(net, s, interfaces, j, open);
        Recalculate(interfaces[j], up, open);
        j := j + 1;
      }
      assert interfaces[..|interfaces|] == interfaces;
    }

    /** set_whole_value; open are the interfaces that may become enabled or disabled by it. */
    method SetWholeValue(node: Node, newValue: Value, ghost open: set<Node>)
      requires Coherent() && node in values && SameFlavor(values[node], newValue)
      requires Enabled(values[node]) != Enabled(newValue) ==>
        Drifts(net, WithValue(Now(), node, newValue), Enabled(newValue), open)
      modifies this`values, this`valueChanges
      ensures Coherent() && Now() == SetWithin(net, old(Now()), node, newValue, open)
      ensures Enabled(old(values)[node]) != Enabled(newValue) ==> Drifts(net, Now(), Enabled(newValue), open)
      decreases open, if Enabled(values[node]) != Enabled(newValue) then 3 else 0, 0
    {
      hide Net.RefsOk, Net.Implemented, Net.Implementers, Recalculated, Drifts;
      ghost var s := Now();
      var oldValue := values[node];
      var valueChanged, boolChanged := false, false;
      if oldValue.Bool? || oldValue.BoolData? {
        if Enabled(oldValue) != Enabled(newValue) {
          valueChanged, boolChanged := true, true;
        }
      }
      if !valueChanged && (oldValue.BoolData? || oldValue.Data?) {
        if oldValue.data != newValue.data {
          valueChanged := true;
        }
      }
      if valueChanged && node !in valueChanges {
        valueChanges := valueChanges + [node];
      }
      values := values[node := newValue];
      assert Now() == WithValue(s, node, newValue);
      if boolChanged {
        ImplementedAreInterfaces(net, node);
        RecalculateAll(net.Implemented(node), Enabled(newValue), open);
      }
    }

    /** A value given by the user, a wizard or an inference. */
    method GiveValue(node: Node, newValue: Value)
      requires Ready() && node in values && SameFlavor(values[node], newValue)
      modifies this`values, this`valueChanges, this`given
      ensures Ready() && Now() == Give(net, old(Now()), node, newValue)
      ensures forall except :: Noticed(net, old(Now()), except) ==> Noticed(net, Now(), except)
      ensures node in values && values[node] == newValue && given == old(given) + {node}
      ensures newValue != old(values)[node] ==> node in valueChanges
      ensures forall x :: x in old(values) && x != node && net.Implementers(x) == [] ==> x in values && values[x] == old(values)[x]
    {
      hide View.Ok, Net.Local, Net.RefsOk, SetWithin, WithValue, Noticed, Counted, SameFlavor, Steady, Drifts, Enabled;
      ghost var s := Now();
      given := given + {node};
      GivenCounts(net, s, node);
      ValueDrifts(net, Now(), node, newValue);
      SetWholeValue(node, newValue, net.Interfaces());
      GiveReady(net, depth, s, node, newValue);
      GiveGives(net, s, node, newValue);
    }

    // -------------------------------------------------------------- flags

    /** set_active */
    method SetActive(node: Node, state: bool)
      requires Valid()
      modifies this`activated, this`deactivated, this`activeChanges, this`values, this`valueChanges
      ensures Valid() && Now() == Propagation.SetActive(net, old(Now()), node, state)
      ensures Active() == if state then old(Active()) + {node} else old(Active()) - {node}
      ensures activeChanges == old(activeChanges) + [node]
    {
      hide Net.RefsOk, Recalculated, Counted, Drifts;
      ghost var s := Now();
      MarkSets(wasActive, activated, deactivated, node);
      if state {
        activated, deactivated := activated + {node}, deactivated - {node};
      } else {
        activated, deactivated := activated - {node}, deactivated + {node};
      }
      activeChanges := activeChanges + [node];
      assert Now() == Flagged(s, node, state);
      FlaggedDrifts(net, s, node, state);
      ImplementedAreInterfaces(net, node);
      RecalculateAll(net.Implemented(node), state, net.Interfaces());
      SetActiveCounts(net, s, node, state);
    }

    /** test_active of a node and, if it has a value, its goals */
    method TestActive(node: Node) returns (result: bool)
      requires Coherent()
      ensures result <==> Wanted(net, Now(), node)
    {
      hide Net.RefsOk, Enabled;
      result := false;
      if node in net.tree.up {
        var parent := net.tree.up[node];
        var active := IsActive(parent);
        if active {
          if parent !in values {
            result := true;
          } else if Enabled(values[parent]) {
            result := true;
          }
        }
      }
      if result && node in values {
        result := net.goals(node, Active(), values);
      }
    }

    /** The active_if update handler, and the test after a node has been bound or re-parented. */
    method Retest(node: Node)
      requires Valid()
      modifies this`activated, this`deactivated, this`activeChanges, this`values, this`valueChanges
      ensures Valid() && Now() == Updated(net, old(Now()), Test(node))
    {
      hide Net.RefsOk, Wanted, Propagation.SetActive, Counted;
      var oldState := IsActive(node);
      var newState := TestActive(node);
      if oldState != newState {
        SetActive(node, newState);
      }
    }

    /** The update handler of default_value and calculated properties. */
    method Reevaluate(node: Node)
      requires Valid() && node in net.computed
      modifies this`values, this`valueChanges
      ensures Valid() && Now() == Updated(net, old(Now()), Compute(node))
      ensures node in values && node !in given && values[node].Data? ==>
        values[node].data == net.results(node, old(Active()), old(values))
      ensures node in values && node !in given && (values[node].Bool? || values[node].BoolData?) ==>
        var r := net.results(node, old(Active()), old(values));
        values[node].on <==> (r.Number? && r.n != 0) || (r.Text? && r.text !in ["", "false", "False", "FALSE"])
      ensures node in values && node !in given && values[node].BoolData? ==>
        values[node].data == if values[node].on then net.results(node, old(Active()), old(values)) else Number(0)
      ensures node in given && node in old(values) ==> values == old(values)
    {
      hide Net.RefsOk, SetWithin, WithValue, SameFlavor, Set, Recount, Counted, Drifts, Enabled;
      ghost var s := Now();
      UpdatedCounts(net, s, Compute(node));
      if node in values && node !in given {
        var result := net.results(node, Active(), values);
        KeepsFlavor(values[node], result, 0);
        InterfaceHasNoExpression(net, node);
        ValueDrifts(net, s, node, Set(values[node], result));
        SetByFlavor(values[node], result);
        ComputedTakesValue(net, s, node, Set(values[node], result));
        SetWholeValue(node, Set(values[node], result), net.Interfaces());
      }
    }

    /** The updates that properties call for, one after the other. */
    method UpdateAll(updates: seq<Update>)
      requires Valid() && forall u :: u in updates && u.Compute? ==> u.node in net.computed
      modifies this`activated, this`deactivated, this`activeChanges, this`values, this`valueChanges
      ensures Valid() && Now() == AllUpdated(net, old(Now()), updates, |updates|)
    {
      hide Net.RefsOk, Updated, Counted;
      ghost var s := Now();
      var i := 0;
      while i < |updates|
        invariant 0 <= i <= |updates| && Valid() && Now() == AllUpdated(net, s, updates, i)
      {
        match updates[i] {
          case Test(source) => Retest(source);
          case Compute(source) => Reevaluate(source);
        }
        i := i + 1;
      }
    }

    /** The last loop of bind: the flags of new nodes, which start off inactive. */
    method InitFlags(nodes: seq<Node>)
      requires Valid()
      modifies this`activated, this`deactivated, this`activeChanges, this`values, this`valueChanges
      ensures Valid() && Now() == AllUpdated(net, old(Now()), Tests(nodes), |nodes|)
    {
      hide Net.RefsOk, Updated, Counted;
      ghost var s := Now();
      var i := 0;
      while i < |nodes|
        invariant 0 <= i <= |nodes| && Valid() && Now() == AllUpdated(net, s, Tests(nodes), i)
      {
        Retest(nodes[i]);
        i := i + 1;
      }
    }

    /** The end of bind, with the updates that the properties of the new nodes call for: whatever
        the flags and defaults of these were, nothing is unnoticed afterwards. */
    method Bind(inits: seq<Update>, nodes: seq<Node>)
      requires Ready() && (forall n :: n in nodes ==> n in net.tree.up)
      requires forall u :: u in inits ==> if u.Test? then u.node in net.tree.up else u.node in net.computed
      requires Noticed(net, Now(), ToSet(inits + Tests(nodes)))
      modifies this`activated, this`deactivated, this`activeChanges, this`values, this`valueChanges
      ensures Ready() && Noticed(net, Now(), {})
      ensures var updates := inits + Tests(nodes); Now() == AllUpdated(net, old(Now()), updates, |updates|)
    {
      hide View.Ok, Net.Local, Net.RefsOk, Noticed, Counted, Steady, Tests, AllUpdated;
      ghost var s := Now();
      UpdateAll(inits);
      InitFlags(nodes);
      TestsLength(nodes);
      UpdatedInTurn(net, s, inits, Tests(nodes), |nodes|);
      BindReady(net, depth, s, inits, nodes);
    }

    // -------------------------------------------------------------- propagation

    /** The update of a container: every node in it gets the flag it should have. */
    method UpdateContents(node: Node)
      requires Ready() && node in net.tree.nodes
      modifies this`activated, this`deactivated, this`activeChanges, this`values, this`valueChanges
      ensures Valid() && Now() == AllUpdated(net, old(Now()), Tests(net.tree.Kids(node)), |net.tree.Kids(node)|)
    {
      hide View.Ok, Net.Local, Net.RefsOk, Steady, View.Kids, Updated, Wanted, Counted;
      KidsListed(net.tree, depth, node);
      var contents := net.tree.kids[node];
      NotItsOwnChild(net.tree, depth, node);
      ghost var s := Now();
      var i := 0;
      var isActive := IsActive(node);
      if isActive {
        while i < |contents|
          invariant 0 <= i <= |contents| && Valid() && Now() == AllUpdated(net, s, Tests(contents), i)
        {
          Retest(contents[i]);
          i := i + 1;
        }
      } else {
        while i < |contents|
          invariant 0 <= i <= |contents| && Valid() && Now() == AllUpdated(net, s, Tests(contents), i)
          invariant node !in Now().active
        {
          Deactivate(node, contents[i]);
          i := i + 1;
        }
      }
    }

    /** The loop body for an inactive container. */
    method Deactivate(node: Node, child: Node)
      requires Valid() && child in net.tree.up && net.tree.up[child] == node && node !in Now().active && child != node
      modifies this`activated, this`deactivated, this`activeChanges, this`values, this`valueChanges
      ensures Valid() && Now() == Updated(net, old(Now()), Test(child)) && node !in Now().active
    {
      hide Net.RefsOk, Propagation.SetActive, Announces, Counted;
      SetActiveAnnounces(net, Now(), child, false);
      var active := IsActive(child);
      if active {
        SetActive(child, false);
      }
    }

    /** The visit of a node taken from a queue: nothing happens if it is not loaded any more. */
    method Visit(node: Node)
      requires Ready() && node in net.tree.nodes
      modifies this`activated, this`deactivated, this`activeChanges, this`values, this`valueChanges
      ensures Valid() && Now() == Visited(net, old(Now()), node)
    {
      hide View.Ok, Net.Local, Net.RefsOk, Steady, View.Kids, Net.Referrers, Updated, Tests, Counted;
      if node in net.tree.attached {
        ghost var s := Now();
        ReferrersComputed(net, node);
        UpdateContents(node);
        UpdateAll(net.Referrers(node));
        TestsLength(net.tree.Kids(node));
        UpdatedInTurn(net, s, Tests(net.tree.Kids(node)), net.Referrers(node), |net.Referrers(node)|);
      }
    }

    /** The body of the loop in propagate. */
    method Round()
      requires Ready() && (|valueChanges| > 0 || |activeChanges| > 0)
      modifies this`activated, this`deactivated, this`activeChanges, this`values, this`valueChanges
      ensures Ready() && Now() == Step(net, old(Now()))
    {
      hide View.Ok, Net.Local, Net.RefsOk, Steady, Visited, Counted;
      ghost var s := Now();
      RestCounts(net, s);
      VisitSteady(net, depth, s);
      NextIsNode(net, s);
      var node;
      if |valueChanges| > 0 {
        node := valueChanges[0];
        valueChanges := valueChanges[1..];
      } else {
        node := activeChanges[0];
        activeChanges := activeChanges[1..];
      }
      assert Now() == Rest(s) && node == Next(s);
      Visit(node);
    }

    /** propagate: values first, then flags, each time the one at the front.  If no node depends
        on itself the loop ends, and then there is nothing left to do. */
    method Propagate(ghost level: map<Node, nat>) returns (ghost rounds: nat)
      requires Ready() && Noticed(net, Now(), {}) && Layered(net, level)
      modifies this`activated, this`deactivated, this`activeChanges, this`values, this`valueChanges
      ensures Ready() && Now() == Steps(net, old(Now()), rounds) && rounds <= Work(net, level, old(Now()))
      ensures valueChanges == [] && activeChanges == [] && Solved(net, Now())
    {
      hide View.Ok, Net.Local, Net.RefsOk, Steady, Noticed, Counted, Layered, Work, Rest, Next, Visited, Solved, Quiet;
      ghost var s := Now();
      rounds := 0;
      while |valueChanges| > 0 || |activeChanges| > 0
        invariant Ready() && Now() == Steps(net, s, rounds) && Noticed(net, Now(), {})
        invariant rounds + Work(net, level, Now()) <= Work(net, level, s)
        decreases Work(net, level, Now())
      {
        NotQuiet(Now());
        VisitDecreases(net, depth, level, Now());
        VisitKeeps(net, depth, Now());
        Round();
        rounds := rounds + 1;
      }
      NotQuiet(Now());
      QuietIsSolved(net, Now());
    }
  }

  lemma NotQuiet(s: State)
    ensures Quiet(s) <==> |s.valueChanges| == 0 && |s.activeChanges| == 0
  {
  }

  lemma NextIsNode(net: Net, s: State)
    requires Steady(net, s) && !Quiet(s)
    ensures Next(s) in net.tree.nodes
  {
    WaitingSplit(s, Next(s));
  }

  lemma TestsLength(s: seq<Node>)
    ensures |Tests(s)| == |s|
  {
  }

  lemma NotItsOwnChild(v: View, depth: map<Node, nat>, n: Node)
    requires v.Ok(depth) && n in v.nodes
    ensures forall k :: k in v.Kids(n) ==> k in v.up && v.up[k] == n && k != n
  {
    hide View.Ok, View.Kids;
    forall k | k in v.Kids(n) ensures k in v.up && v.up[k] == n && k != n {
      Child(v, depth, n, k);
      Parents(v, depth, k);
    }
  }

  /** Two lists of updates, one after the other. */
  lemma {:induction false} UpdatedInTurn(net: Net, s: State, p: seq<Update>, q: seq<Update>, i: nat)
    requires i <= |q|
    ensures AllUpdated(net, s, p + q, |p| + i) == AllUpdated(net, AllUpdated(net, s, p, |p|), q, i)
  {
    hide Updated;
    if i > 0 {
      UpdatedInTurn(net, s, p, q, i - 1);
    } else {
      UpdatedPrefix(net, s, p, q, |p|);
    }
  }

  lemma {:induction false} UpdatedPrefix(net: Net, s: State, p: seq<Update>, q: seq<Update>, i: nat)
    requires i <= |p|
    ensures AllUpdated(net, s, p + q, i) == AllUpdated(net, s, p, i)
  {
    hide Updated;
    if i > 0 {
      UpdatedPrefix(net, s, p, q, i - 1);
    }
  }

  lemma BindReady(net: Net, depth: map<Node, nat>, s: State, inits: seq<Update>, nodes: seq<Node>)
    requires net.Ok(depth) && Steady(net, s) && forall n :: n in nodes ==> n in net.tree.up
    requires forall u :: u in inits ==> if u.Test? then u.node in net.tree.up else u.node in net.computed
    requires Noticed(net, s, ToSet(inits + Tests(nodes)))
    ensures var updates := inits + Tests(nodes);
      var t := AllUpdated(net, s, updates, |updates|);
      Steady(net, t) && Noticed(net, t, {}) && (Counted(net, s, {}) ==> Counted(net, t, {}))
  {
    hide View.Ok, Net.Local, Net.RefsOk, Steady, Noticed, Counted, AllUpdated, Tests;
    var updates := inits + Tests(nodes);
    forall u | u in updates ensures if u.Test? then u.node in net.tree.up else u.node in net.computed {
      TestsOf(nodes, u);
    }
    TreeFacts(net.tree, depth);
    AllUpdatedKeeps(net, s, updates, |updates|);
    assert ToSet(updates[|updates|..]) == {};
    AllUpdatedSteady(net, s, updates, |updates|);
    if Counted(net, s, {}) {
      AllUpdatedCounts(net, s, updates, |updates|);
    }
  }

  lemma StartSteady(net: Net, active: set<Node>, values: map<Node, Value>, given: set<Node>)
    requires net.tree.root in active && net.tree.root !in values && values.Keys <= net.tree.nodes
    ensures Steady(net, State(active, values, given, [], []))
  {
  }

  lemma MarkSets(was: set<Node>, on: set<Node>, off: set<Node>, n: Node)
    requires on !! off
    ensures was - (off - {n}) + (on + {n}) == was - off + on + {n} && on + {n} !! off - {n}
    ensures was - (off + {n}) + (on - {n}) == was - off + on - {n} && on - {n} !! off + {n}
  {
  }

  lemma RecalculatedNone(net: Net, s: State, open: set<Node>)
    ensures Recalculated(net, s, [], open) == s
  {
  }

  /** One interface recalculated: the change is never stopped. */
  lemma RecalculatedOne(net: Net, s: State, i: Node, up: bool, open: set<Node>)
    requires net.Implementers(i) != [] && Drifts(net, s, up, open)
    ensures if i in s.values && i !in s.given then
        var v := Recount(s.values[i], Count(s, net.Implementers(i)));
        var open' := if Enabled(v) != Enabled(s.values[i]) then open - {i} else open;
        && Recalculated(net, s, [i], open) == SetWithin(net, s, i, v, open') && SameFlavor(s.values[i], v)
        && (Enabled(v) != Enabled(s.values[i]) ==> i in open && Enabled(v) == up)
        && Drifts(net, WithValue(s, i, v), up, open')
      else Recalculated(net, s, [i], open) == s
  {
    hide Recount, Count, WithValue, Enabled, Net.Implementers, Net.Implemented, Drifts, SameFlavor;
    assert [i][..0] == [];
    RecalculatedNone(net, s, open);
    if i in s.values && i !in s.given {
      WithValueDrifts(net, s, i, up, open);
      KeepsFlavor(s.values[i], Number(0), Count(s, net.Implementers(i)));
    }
  }

  lemma RecountIs(v: Value, count: nat)
    ensures Recount(v, count) == match v
      case Flavorless => v
      case Bool(on) => Bool(count > 0)
      case BoolData(_, data) => if count != IntegerOf(data) then BoolData(count > 0, Number(count)) else v
      case Data(data) => if count != IntegerOf(data) then Data(Number(count)) else v
  {
  }

  lemma SameValueAgain(net: Net, s: State, i: Node, open: set<Node>)
    requires i in s.values
    ensures SetWithin(net, s, i, s.values[i], open) == s && WithValue(s, i, s.values[i]) == s
  {
  }

  lemma RecalculatedNext(net: Net, s: State, interfaces: seq<Node>, j: nat, open: set<Node>)
    requires j < |interfaces|
    ensures Recalculated(net, s, interfaces[..j + 1], open)
         == Recalculated(net, Recalculated(net, s, interfaces[..j], open), [interfaces[j]], open)
  {
    hide Recount, Count, WithValue, Enabled, Net.Implementers, Net.Implemented;
    assert interfaces[..j + 1][..j] == interfaces[..j];
    assert [interfaces[j]][..0] == [];
    RecalculatedNone(net, Recalculated(net, s, interfaces[..j], open), open);
  }

  lemma ReferrersComputed(net: Net, x: Node)
    requires net.RefsOk()
    ensures forall u :: u in net.Referrers(x) && u.Compute? ==> u.node in net.computed
  {
  }

  /** What giving a value keeps. */
  lemma GiveReady(net: Net, depth: map<Node, nat>, s: State, n: Node, v: Value)
    requires net.Ok(depth) && Steady(net, s) && n in s.values
    ensures Steady(net, Give(net, s, n, v))
    ensures forall except :: Noticed(net, s, except) ==> Noticed(net, Give(net, s, n, v), except)
    ensures Counted(net, s, {}) ==> Counted(net, Give(net, s, n, v), {})
  {
    hide View.Ok, Net.Local, Net.RefsOk, Give, Noticed, Counted, Steady;
    forall except | Noticed(net, s, except) ensures Noticed(net, Give(net, s, n, v), except) {
      GiveKeeps(net, s, n, v, except);
    }
    if Counted(net, s, {}) {
      GiveCounts(net, s, n, v);
    }
    GiveSteady(net, depth, s, n, v);
  }

  /** The value given is in force, what has changed waits, and nothing else but interfaces has. */
  lemma GiveGives(net: Net, s: State, n: Node, v: Value)
    requires net.RefsOk() && n in s.values
    ensures var t := Give(net, s, n, v);
      && n in t.values && t.values[n] == v && t.given == s.given + {n}
      && (v != s.values[n] ==> n in t.valueChanges)
      && forall x :: x in s.values && x != n && net.Implementers(x) == [] ==> x in t.values && t.values[x] == s.values[x]
  {
    hide Net.RefsOk, Recalculated, Enabled, Net.Implementers, Net.Implemented;
    var g := s.(given := s.given + {n});
    SetValueAnnounces(net, g, n, v);
    RecalculatedKeepsGiven(net, WithValue(g, n, v), net.Implemented(n), net.Interfaces(), n);
    StillWaits(WithValue(g, n, v).valueChanges, SetValue(net, g, n, v).valueChanges, n);
  }

  lemma StillWaits(a: seq<Node>, b: seq<Node>, n: Node)
    requires a <= b
    ensures n in a ==> n in b
  {
    assert forall i :: 0 <= i < |a| ==> a[i] == b[i];
  }

  lemma ComputedTakesValue(net: Net, s: State, n: Node, v: Value)
    requires net.RefsOk() && n in s.values && net.Implementers(n) == []
    ensures var t := SetValue(net, s, n, v); n in t.values && t.values[n] == v
  {
    hide Net.RefsOk, SetValue, Net.Implementers;
    SetValueAnnounces(net, s, n, v);
  }

  lemma GiveSteady(net: Net, depth: map<Node, nat>, s: State, n: Node, v: Value)
    requires net.Ok(depth) && Steady(net, s) && n in s.values
    ensures Steady(net, Give(net, s, n, v))
  {
    hide View.Ok, Net.Local, Net.RefsOk, SetValue;
    var g := s.(given := s.given + {n});
    SetValueAnnounces(net, g, n, v);
    TreeFacts(net.tree, depth);
    SteadyAfter(net, s, Give(net, s, n, v));
  }
}
