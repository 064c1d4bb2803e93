/** Where propagation leads (ecos/host/libcdl/transact.cxx): it ends if no node depends on itself,
    directly or through others, interfaces aside that implement each other; if there are no such
    interfaces, the result depends on nothing but the values that were given. */
module Settling {
  import opened HierarchyView
  import opened Propagation
  import opened Interfaces

  function Level(level: map<Node, nat>, n: Node): nat {
    if n in level then level[n] else 0
  }

  /** A witness that no node depends on itself, other than interfaces that implement each other:
      whatever has to be looked at when x changes lies on a lower level, and the interfaces a
      node implements are no higher than the node. */
  ghost predicate Layered(net: Net, level: map<Node, nat>) {
    && (forall u, x :: net.Depends(u, x) ==> Level(level, u.node) < Level(level, x))
    && (forall n, i :: i in net.Implemented(n) ==> Level(level, i) <= Level(level, n))
  }

  /** A witness that no interface implements itself either, directly or through others. */
  ghost predicate StrictlyLayered(net: Net, level: map<Node, nat>) {
    Layered(net, level) && forall n, i :: i in net.Implemented(n) ==> Level(level, i) < Level(level, n)
  }

  // ---------------------------------------------------------------- what a run costs

  function Nodes(updates: seq<Update>): seq<Node> {
    seq(|updates|, i requires 0 <= i < |updates| => updates[i].node)
  }

  /** How many visits a visit of x may lead to, itself included. */
  ghost function VisitCost(net: Net, level: map<Node, nat>, x: Node): nat
    decreases Level(level, x), 1, 0
  {
    1 + Cost(net, level, Level(level, x), Nodes(net.Dependents(x)))
  }

  /** The interfaces, in some order. */
  ghost function Listing(nodes: set<Node>): (q: seq<Node>)
    ensures forall n :: n in q <==> n in nodes
  {
    if nodes == {} then [] else
    var n :| n in nodes;
    Listing(nodes - {n}) + [n]
  }

  /** How many visits a change of n may lead to, those of the interfaces it may change included. */
  ghost function ChangeCost(net: Net, level: map<Node, nat>, n: Node): nat
    decreases Level(level, n), 3, 0
  {
    VisitCost(net, level, n) + CostUpTo(net, level, Level(level, n), Listing(net.Interfaces()))
  }

  /** How many visits some nodes may lead to, as far as they are no higher than m. */
  ghost function CostUpTo(net: Net, level: map<Node, nat>, m: nat, nodes: seq<Node>): nat
    decreases m, 2, |nodes|
  {
    if nodes == [] then 0 else
    var n := nodes[|nodes| - 1];
    CostUpTo(net, level, m, nodes[..|nodes| - 1]) + if Level(level, n) <= m then VisitCost(net, level, n) else 0
  }

  /** How many visits changes of some nodes below level k may lead to. */
  ghost function Cost(net: Net, level: map<Node, nat>, k: nat, nodes: seq<Node>): nat
    decreases k, 0, |nodes|
  {
    if nodes == [] then 0 else
    var n := nodes[|nodes| - 1];
    Cost(net, level, k, nodes[..|nodes| - 1]) + if Level(level, n) < k then ChangeCost(net, level, n) else 0
  }

  ghost function QueueCost(net: Net, level: map<Node, nat>, q: seq<Node>): nat {
    if q == [] then 0 else QueueCost(net, level, q[..|q| - 1]) + VisitCost(net, level, q[|q| - 1])
  }

  ghost function Work(net: Net, level: map<Node, nat>, s: State): nat {
    QueueCost(net, level, s.valueChanges) + QueueCost(net, level, s.activeChanges)
  }

  lemma QueueMore(net: Net, level: map<Node, nat>, q: seq<Node>, n: Node)
    ensures QueueCost(net, level, q + [n]) == QueueCost(net, level, q) + VisitCost(net, level, n)
  {
    hide VisitCost;
    assert (q + [n])[..|q|] == q;
  }

  lemma {:induction false} QueueLess(net: Net, level: map<Node, nat>, q: seq<Node>)
    requires q != []
    ensures QueueCost(net, level, q) == VisitCost(net, level, q[0]) + QueueCost(net, level, q[1..])
  {
    hide VisitCost;
    if |q| > 1 {
      QueueLess(net, level, q[..|q| - 1]);
      assert q[..|q| - 1][1..] == q[1..][..|q| - 2];
    }
  }

  /** The part of CostUpTo for nodes that do not wait already: a node waits for its change of
      value once only. */
  ghost function CostToCome(net: Net, level: map<Node, nat>, m: nat, nodes: seq<Node>, waiting: seq<Node>): nat {
    if nodes == [] then 0 else
    var n := nodes[|nodes| - 1];
    CostToCome(net, level, m, nodes[..|nodes| - 1], waiting)
    + if Level(level, n) <= m && n !in waiting then VisitCost(net, level, n) else 0
  }

  lemma {:induction false} LessToCome(net: Net, level: map<Node, nat>, m: nat, nodes: seq<Node>, waiting: seq<Node>)
    ensures CostToCome(net, level, m, nodes, waiting) <= CostUpTo(net, level, m, nodes)
  {
    hide VisitCost, Level;
    if nodes != [] {
      LessToCome(net, level, m, nodes[..|nodes| - 1], waiting);
    }
  }

  lemma {:induction false} OneCame(net: Net, level: map<Node, nat>, m: nat, nodes: seq<Node>, waiting: seq<Node>, n: Node)
    requires n !in waiting
    ensures var rest := CostToCome(net, level, m, nodes, waiting + [n]);
      && rest <= CostToCome(net, level, m, nodes, waiting)
      && (n in nodes && Level(level, n) <= m ==> rest + VisitCost(net, level, n) <= CostToCome(net, level, m, nodes, waiting))
  {
    hide VisitCost, Level;
    if nodes != [] {
      OneCame(net, level, m, nodes[..|nodes| - 1], waiting, n);
      assert nodes == nodes[..|nodes| - 1] + [nodes[|nodes| - 1]];
    }
  }

  /** What waits, and what interfaces up to level m may still add to it. */
  ghost function WorkUpTo(net: Net, level: map<Node, nat>, s: State, m: nat): nat {
    Work(net, level, s) + CostToCome(net, level, m, Listing(net.Interfaces()), s.valueChanges)
  }

  lemma WithValueCost(net: Net, level: map<Node, nat>, s: State, n: Node, v: Value)
    ensures Work(net, level, WithValue(s, n, v)) <= Work(net, level, s) + VisitCost(net, level, n)
  {
    hide VisitCost, QueueCost;
    QueueMore(net, level, s.valueChanges, n);
  }

  lemma InterfaceCost(net: Net, level: map<Node, nat>, s: State, i: Node, v: Value, m: nat)
    requires net.Implementers(i) != [] && Level(level, i) <= m
    ensures WorkUpTo(net, level, WithValue(s, i, v), m) <= WorkUpTo(net, level, s, m)
  {
    hide VisitCost, QueueCost, CostToCome, Level, Listing;
    QueueMore(net, level, s.valueChanges, i);
    if i !in s.valueChanges {
      OneCame(net, level, m, Listing(net.Interfaces()), s.valueChanges, i);
    }
  }

  lemma {:induction false} RecalculatedCost(net: Net, level: map<Node, nat>, s: State, interfaces: seq<Node>, open: set<Node>,
                                            m: nat)
    requires net.RefsOk() && Layered(net, level) && AllInterfaces(net, interfaces)
    requires forall i :: i in interfaces ==> Level(level, i) <= m
    ensures WorkUpTo(net, level, Recalculated(net, s, interfaces, open), m) <= WorkUpTo(net, level, s, m)
    decreases open, |interfaces|
  {
    hide Layered, WorkUpTo, Recount, Count, WithValue, Enabled, Net.RefsOk, Net.Implemented, Net.Implementers, Level;
    if interfaces != [] {
      var most, i := interfaces[..|interfaces| - 1], interfaces[|interfaces| - 1];
      var t := Recalculated(net, s, most, open);
      RecalculatedCost(net, level, s, most, open, m);
      if i in t.values && i !in t.given {
        var v := Recount(t.values[i], Count(t, net.Implementers(i)));
        InterfaceCost(net, level, t, i, v, m);
        if Enabled(v) != Enabled(t.values[i]) && i in open {
          InterfacesLower(net, level, i);
          ImplementedAreInterfaces(net, i);
          RecalculatedCost(net, level, WithValue(t, i, v), net.Implemented(i), open - {i}, m);
        }
      }
    }
  }

  lemma InterfacesLower(net: Net, level: map<Node, nat>, n: Node)
    requires Layered(net, level)
    ensures forall i :: i in net.Implemented(n) ==> Level(level, i) <= Level(level, n)
  {
  }

  /** What interfaces add to the work when a node has changed. */
  lemma CascadeCost(net: Net, level: map<Node, nat>, s: State, n: Node)
    requires net.RefsOk() && Layered(net, level)
    ensures Work(net, level, Recalculated(net, s, net.Implemented(n), net.Interfaces()))
         <= Work(net, level, s) + CostUpTo(net, level, Level(level, n), Listing(net.Interfaces()))
  {
    hide Layered, Recalculated, Work, CostToCome, CostUpTo, Listing, Net.RefsOk, Net.Implemented, Level;
    InterfacesLower(net, level, n);
    ImplementedAreInterfaces(net, n);
    RecalculatedCost(net, level, s, net.Implemented(n), net.Interfaces(), Level(level, n));
    LessToCome(net, level, Level(level, n), Listing(net.Interfaces()), s.valueChanges);
  }

  lemma SetActiveCost(net: Net, level: map<Node, nat>, s: State, n: Node, b: bool)
    requires net.RefsOk() && Layered(net, level)
    ensures Work(net, level, SetActive(net, s, n, b)) <= Work(net, level, s) + ChangeCost(net, level, n)
  {
    hide Layered, Recalculated, VisitCost, CostUpTo, QueueCost, Level, Net.RefsOk, Listing;
    QueueMore(net, level, s.activeChanges, n);
    CascadeCost(net, level, Flagged(s, n, b), n);
  }

  lemma SetValueCost(net: Net, level: map<Node, nat>, s: State, n: Node, v: Value)
    requires net.RefsOk() && Layered(net, level)
    ensures Work(net, level, SetValue(net, s, n, v)) <= Work(net, level, s) + ChangeCost(net, level, n)
  {
    hide Layered, Recalculated, VisitCost, CostUpTo, Work, WithValue, Level, Net.RefsOk, Listing;
    WithValueCost(net, level, s, n, v);
    CascadeCost(net, level, WithValue(s, n, v), n);
  }

  lemma UpdatedCost(net: Net, level: map<Node, nat>, s: State, u: Update)
    requires net.RefsOk() && Layered(net, level)
    ensures Work(net, level, Updated(net, s, u)) <= Work(net, level, s) + ChangeCost(net, level, u.node)
  {
    hide Net.RefsOk, Layered, SetActive, SetValue, Set, Wanted, ChangeCost, Work;
    match u {
      case Test(n) => SetActiveCost(net, level, s, n, Wanted(net, s, n));
      case Compute(n) =>
        if n in s.values {
          SetValueCost(net, level, s, n, Set(s.values[n], net.results(n, s.active, s.values)));
        }
    }
  }

  lemma {:induction false} AllUpdatedCost(net: Net, level: map<Node, nat>, s: State, updates: seq<Update>, i: nat, m: nat)
    requires net.RefsOk() && Layered(net, level) && i <= |updates| && forall u :: u in updates ==> Level(level, u.node) < m
    ensures Work(net, level, AllUpdated(net, s, updates, i)) <= Work(net, level, s) + Cost(net, level, m, Nodes(updates)[..i])
  {
    hide Net.RefsOk, Layered, Updated, ChangeCost, Work, Level;
    if i > 0 {
      AllUpdatedCost(net, level, s, updates, i - 1, m);
      UpdatedCost(net, level, AllUpdated(net, s, updates, i - 1), updates[i - 1]);
      assert Nodes(updates)[..i][..i - 1] == Nodes(updates)[..i - 1];
    }
  }

  lemma DependentsLower(net: Net, level: map<Node, nat>, u: Update, x: Node)
    requires Layered(net, level) && net.Depends(u, x)
    ensures Level(level, u.node) < Level(level, x)
  {
  }

  lemma RestCost(net: Net, level: map<Node, nat>, s: State)
    requires !Quiet(s)
    ensures Work(net, level, s) == VisitCost(net, level, Next(s)) + Work(net, level, Rest(s))
  {
    hide VisitCost, QueueCost;
    if s.valueChanges != [] {
      QueueLess(net, level, s.valueChanges);
    } else {
      QueueLess(net, level, s.activeChanges);
    }
  }

  /** A visit costs more than all the changes it can cause. */
  lemma VisitDecreases(net: Net, depth: map<Node, nat>, level: map<Node, nat>, s: State)
    requires net.Ok(depth) && Layered(net, level) && Steady(net, s) && !Quiet(s)
    ensures Work(net, level, Visited(net, Rest(s), Next(s))) < Work(net, level, s)
  {
    hide View.Ok, Net.Local, Net.RefsOk, Layered, Rest, Next, AllUpdated, Cost, Work, Net.Dependents, Level, Nodes;
    RestCost(net, level, s);
    var x := Next(s);
    if x in net.tree.attached {
      WaitingSplit(s, x);
      var d := net.Dependents(x);
      forall u | u in d ensures Level(level, u.node) < Level(level, x) {
        DependentsAre(net, depth, u, x);
        DependentsLower(net, level, u, x);
      }
      AllUpdatedCost(net, level, Rest(s), d, |d|, Level(level, x));
      AllNodes(d);
    }
  }

  lemma AllNodes(updates: seq<Update>)
    ensures Nodes(updates)[..|updates|] == Nodes(updates)
  {
  }

  lemma {:induction false} StepsOfStep(net: Net, s: State, k: nat)
    ensures Steps(net, Step(net, s), k) == Steps(net, s, k + 1)
  {
    hide Step;
    if k > 0 {
      StepsOfStep(net, s, k - 1);
    } else {
      assert Steps(net, s, 1) == Step(net, Steps(net, s, 0));
    }
  }

  /** If no node depends on itself, propagation ends. */
  lemma {:induction false} EndsWhenLayered(net: Net, depth: map<Node, nat>, level: map<Node, nat>, s: State) returns (k: nat)
    requires net.Ok(depth) && Layered(net, level) && Steady(net, s)
    ensures k <= Work(net, level, s) && Quiet(Steps(net, s, k))
    decreases Work(net, level, s)
  {
    hide Net.Ok, Layered, Steady, Visited, Rest, Next, Work, Quiet;
    k := 0;
    if !Quiet(s) {
      VisitDecreases(net, depth, level, s);
      VisitSteady(net, depth, s);
      var j := EndsWhenLayered(net, depth, level, Step(net, s));
      StepsOfStep(net, s, j);
      k := j + 1;
    }
  }

  // ---------------------------------------------------------------- the result is determined

  predicate SameFlavor(v: Value, w: Value) {
    (v.Flavorless? <==> w.Flavorless?) && (v.Bool? <==> w.Bool?) && (v.BoolData? <==> w.BoolData?)
  }

  /** Values that propagation does not set. */
  ghost predicate Free(net: Net, s: State, n: Node) {
    n in s.given || (n !in net.computed && net.Implementers(n) == [])
  }

  /** Two states with the same flavors, the same values given, and the same flags where
      propagation does not look. */
  ghost predicate SameInputs(net: Net, s: State, t: State) {
    && s.values.Keys == t.values.Keys && s.given == t.given
    && (forall n :: n in s.values ==> SameFlavor(s.values[n], t.values[n]) && (Free(net, s, n) ==> s.values[n] == t.values[n]))
    && (forall n :: !net.Loaded(n) ==> (n in s.active <==> n in t.active))
  }

  lemma SameSet(v: Value, w: Value, d: Datum, c: nat)
    requires SameFlavor(v, w)
    ensures Set(v, d) == Set(w, d) && Counting(v, c) == Counting(w, c)
  {
  }

  lemma SameFlag(net: Net, s: State, t: State, n: Node)
    requires net.Local() && SameInputs(net, s, t) && Solved(net, s) && Solved(net, t)
    requires forall x :: net.Depends(Test(n), x) ==> SameAt(s, t, x)
    ensures n in s.active <==> n in t.active
  {
    hide Net.Local, Wanted, Net.Depends, SameFlavor, Free, SameAt;
    if net.Loaded(n) {
      DoneLocal(net, s, t, t, Test(n));
      assert Right(net, s, Test(n)) && Right(net, t, Test(n));
    }
  }

  lemma SameComputed(net: Net, s: State, t: State, n: Node)
    requires net.Local() && SameInputs(net, s, t) && Solved(net, s) && Solved(net, t)
    requires forall x :: net.Depends(Compute(n), x) ==> SameAt(s, t, x)
    requires n in s.values && n in net.computed
    ensures s.values[n] == t.values[n]
  {
    hide Net.Local, Wanted, Net.Depends, SameFlavor, Set, SameAt;
    if n !in s.given {
      DoneLocal(net, s, t, t, Compute(n));
      assert Right(net, s, Compute(n)) && Right(net, t, Compute(n));
      SameSet(s.values[n], t.values[n], net.results(n, s.active, s.values), 0);
    } else {
      assert Free(net, s, n);
    }
  }

  lemma SameCount(net: Net, s: State, t: State, i: Node)
    requires SameInputs(net, s, t) && Counted(net, s, {}) && Counted(net, t, {})
    requires forall x :: x in net.Implementers(i) ==> SameAt(s, t, x)
    requires i in s.values && net.Implementers(i) != []
    ensures s.values[i] == t.values[i]
  {
    hide Tidy, Counting, Count, SameFlavor;
    if i !in s.given {
      assert Counter(net, s, i) && Counter(net, t, i);
      CountLocal(s, t, net.Implementers(i));
      SameSet(s.values[i], t.values[i], Number(0), Count(s, net.Implementers(i)));
    } else {
      assert Free(net, s, i);
    }
  }

  lemma AreLayered(net: Net, level: map<Node, nat>)
    requires StrictlyLayered(net, level)
    ensures Layered(net, level)
  {
  }

  lemma ImplementersHigher(net: Net, level: map<Node, nat>, i: Node)
    requires net.RefsOk() && StrictlyLayered(net, level)
    ensures forall n :: n in net.Implementers(i) ==> Level(level, i) < Level(level, n)
  {
    forall n | n in net.Implementers(i) ensures Level(level, i) < Level(level, n) {
      assert i in net.Implemented(n);
    }
  }

  /** From the top level down, two solutions for the same inputs agree. */
  lemma {:induction false} SolutionsAgree(net: Net, level: map<Node, nat>, s: State, t: State, top: nat, n: Node)
    requires net.Local() && net.RefsOk() && StrictlyLayered(net, level) && SameInputs(net, s, t)
    requires Solved(net, s) && Solved(net, t) && Counted(net, s, {}) && Counted(net, t, {})
    requires forall x :: Level(level, x) <= top
    ensures SameAt(s, t, n)
    decreases top - Level(level, n)
  {
    hide Net.Local, Net.RefsOk, StrictlyLayered, SameInputs, Solved, Counted, Net.Depends, Level, SameAt;
    forall x | Level(level, x) > Level(level, n) ensures SameAt(s, t, x) {
      SolutionsAgree(net, level, s, t, top, x);
    }
    forall u: Update, x | u.node == n && net.Depends(u, x) ensures SameAt(s, t, x) {
      AreLayered(net, level);
      DependentsLower(net, level, u, x);
    }
    ImplementersHigher(net, level, n);
    SameFlag(net, s, t, n);
    SameValue(net, s, t, n);
    SameBoth(s, t, n);
  }

  lemma SameBoth(s: State, t: State, n: Node)
    requires (n in s.active <==> n in t.active) && (n in s.values <==> n in t.values)
    requires n in s.values ==> s.values[n] == t.values[n]
    ensures SameAt(s, t, n)
  {
  }

  lemma SameValue(net: Net, s: State, t: State, n: Node)
    requires net.Local() && SameInputs(net, s, t)
    requires Solved(net, s) && Solved(net, t) && Counted(net, s, {}) && Counted(net, t, {})
    requires forall x :: net.Depends(Compute(n), x) || x in net.Implementers(n) ==> SameAt(s, t, x)
    ensures n in s.values <==> n in t.values
    ensures n in s.values ==> s.values[n] == t.values[n]
  {
    hide Net.Local, Solved, Counted, Net.Depends, SameAt, SameFlavor;
    if n in s.values {
      if n in net.computed {
        SameComputed(net, s, t, n);
      } else if net.Implementers(n) != [] {
        SameCount(net, s, t, n);
      } else {
        assert Free(net, s, n);
      }
    }
  }

  lemma {:induction false} TopLevel(nodes: set<Node>, level: map<Node, nat>) returns (top: nat)
    ensures forall x :: x in nodes ==> Level(level, x) <= top
    decreases nodes
  {
    top := 0;
    if nodes != {} {
      var x :| x in nodes;
      var k := TopLevel(nodes - {x}, level);
      top := if Level(level, x) > k then Level(level, x) else k;
    }
  }

  /** If no node depends on itself, solutions for the same inputs are the same. */
  lemma SolutionIsUnique(net: Net, depth: map<Node, nat>, level: map<Node, nat>, s: State, t: State)
    requires net.Ok(depth) && StrictlyLayered(net, level) && SameInputs(net, s, t)
    requires Solved(net, s) && Solved(net, t) && Counted(net, s, {}) && Counted(net, t, {})
    ensures s.active == t.active && s.values == t.values
  {
    hide Net.Local, Net.RefsOk, StrictlyLayered, SameInputs, Solved, Counted, View.Ok;
    var top := TopLevel(level.Keys, level);
    forall n ensures SameAt(s, t, n) {
      SolutionsAgree(net, level, s, t, top, n);
    }
    assert s.active == t.active by {
      forall n ensures n in s.active <==> n in t.active {
        assert SameAt(s, t, n);
      }
    }
    assert s.values.Keys == t.values.Keys by {
      forall n ensures n in s.values <==> n in t.values {
        assert SameAt(s, t, n);
      }
    }
    forall n | n in s.values ensures s.values[n] == t.values[n] {
      assert SameAt(s, t, n);
    }
  }

  // ---------------------------------------------------------------- a run keeps its inputs

  lemma InputsTransitive(net: Net, s: State, t: State, u: State)
    requires SameInputs(net, s, t) && SameInputs(net, t, u)
    ensures SameInputs(net, s, u)
  {
    assert forall n :: Free(net, s, n) == Free(net, t, n);
  }

  lemma SameInputsAsBefore(net: Net, s: State)
    ensures SameInputs(net, s, s)
  {
  }

  lemma WithValueInputs(net: Net, s: State, n: Node, v: Value)
    requires n in s.values && SameFlavor(s.values[n], v) && !Free(net, s, n)
    ensures SameInputs(net, s, WithValue(s, n, v))
  {
    var t := WithValue(s, n, v);
    assert t.values.Keys == s.values.Keys;
  }

  lemma KeepsFlavor(v: Value, d: Datum, c: nat)
    ensures SameFlavor(v, Set(v, d)) && SameFlavor(v, Recount(v, c))
  {
  }

  lemma {:induction false} RecalculatedInputs(net: Net, s: State, interfaces: seq<Node>, open: set<Node>)
    requires net.RefsOk() && AllInterfaces(net, interfaces)
    ensures SameInputs(net, s, Recalculated(net, s, interfaces, open))
    decreases open, |interfaces|
  {
    hide Net.RefsOk, SameInputs, Recount, Count, WithValue, Enabled, SameFlavor, Net.Implemented, Net.Implementers;
    if interfaces == [] {
      SameInputsAsBefore(net, s);
    } else {
      var most, i := interfaces[..|interfaces| - 1], interfaces[|interfaces| - 1];
      var t := Recalculated(net, s, most, open);
      RecalculatedInputs(net, s, most, open);
      if i in t.values && i !in t.given {
        var v := Recount(t.values[i], Count(t, net.Implementers(i)));
        KeepsFlavor(t.values[i], Number(0), Count(t, net.Implementers(i)));
        WithValueInputs(net, t, i, v);
        InputsTransitive(net, s, t, WithValue(t, i, v));
        if Enabled(v) != Enabled(t.values[i]) && i in open {
          ImplementedAreInterfaces(net, i);
          RecalculatedInputs(net, WithValue(t, i, v), net.Implemented(i), open - {i});
          InputsTransitive(net, s, WithValue(t, i, v), Recalculated(net, s, interfaces, open));
        }
      }
    }
  }

  lemma FlaggedInputs(net: Net, s: State, n: Node, b: bool)
    requires net.Loaded(n)
    ensures SameInputs(net, s, Flagged(s, n, b))
  {
  }

  lemma UpdatedInputs(net: Net, s: State, u: Update)
    requires net.RefsOk() && Relevant(net, u)
    ensures SameInputs(net, s, Updated(net, s, u))
  {
    hide Net.RefsOk, SameInputs, Recalculated, Wanted, Flagged, WithValue, SameFlavor, Set, Enabled;
    var n := u.node;
    SameInputsAsBefore(net, s);
    ImplementedAreInterfaces(net, n);
    match u {
      case Test(_) =>
        var f := Flagged(s, n, Wanted(net, s, n));
        FlaggedInputs(net, s, n, Wanted(net, s, n));
        RecalculatedInputs(net, f, net.Implemented(n), net.Interfaces());
        InputsTransitive(net, s, f, Recalculated(net, f, net.Implemented(n), net.Interfaces()));
      case Compute(_) =>
        if n in s.values && n !in s.given {
          var v := Set(s.values[n], net.results(n, s.active, s.values));
          KeepsFlavor(s.values[n], net.results(n, s.active, s.values), 0);
          WithValueInputs(net, s, n, v);
          var w := WithValue(s, n, v);
          RecalculatedInputs(net, w, net.Implemented(n), net.Interfaces());
          InputsTransitive(net, s, w, Recalculated(net, w, net.Implemented(n), net.Interfaces()));
        }
    }
  }

  lemma {:induction false} AllUpdatedInputs(net: Net, s: State, updates: seq<Update>, i: nat)
    requires net.RefsOk() && i <= |updates| && forall u :: u in updates ==> Relevant(net, u)
    ensures SameInputs(net, s, AllUpdated(net, s, updates, i))
  {
    hide Net.RefsOk, Updated, SameInputs, Relevant;
    if i > 0 {
      AllUpdatedInputs(net, s, updates, i - 1);
      UpdatedInputs(net, AllUpdated(net, s, updates, i - 1), updates[i - 1]);
      InputsTransitive(net, s, AllUpdated(net, s, updates, i - 1), AllUpdated(net, s, updates, i));
    } else {
      SameInputsAsBefore(net, s);
    }
  }

  lemma DependsRelevant(net: Net, u: Update, x: Node)
    requires net.RefsOk() && x in net.tree.attached
    ensures net.Depends(u, x) ==> Relevant(net, u)
  {
  }

  lemma RestInputs(net: Net, s: State)
    requires !Quiet(s)
    ensures SameInputs(net, s, Rest(s))
  {
  }

  lemma VisitInputs(net: Net, depth: map<Node, nat>, s: State)
    requires net.Ok(depth) && Steady(net, s) && !Quiet(s)
    ensures SameInputs(net, s, Visited(net, Rest(s), Next(s)))
  {
    hide View.Ok, Net.Local, Net.RefsOk, Net.Dependents, AllUpdated, SameInputs, Relevant, Rest, Next;
    var x, r := Next(s), Rest(s);
    RestInputs(net, s);
    if x in net.tree.attached {
      var d := net.Dependents(x);
      WaitingSplit(s, x);
      forall u ensures u in d ==> Relevant(net, u) {
        DependentsAre(net, depth, u, x);
        DependsRelevant(net, u, x);
      }
      AllUpdatedInputs(net, r, d, |d|);
      InputsTransitive(net, s, r, AllUpdated(net, r, d, |d|));
    }
  }

  lemma {:induction false} RunInputs(net: Net, depth: map<Node, nat>, s: State, k: nat)
    requires net.Ok(depth) && Steady(net, s) && Noticed(net, s, {})
    ensures SameInputs(net, s, Steps(net, s, k))
  {
    hide Net.Ok, Steady, Noticed, SameInputs, Visited, Rest, Next, Quiet;
    if k > 0 {
      RunInputs(net, depth, s, k - 1);
      RunKeeps(net, depth, s, k - 1);
      var t := Steps(net, s, k - 1);
      if !Quiet(t) {
        VisitInputs(net, depth, t);
        InputsTransitive(net, s, t, Steps(net, s, k));
      }
    } else {
      SameInputsAsBefore(net, s);
    }
  }

  lemma InputsSymmetric(net: Net, s: State, t: State)
    requires SameInputs(net, s, t)
    ensures SameInputs(net, t, s)
  {
    assert forall n :: Free(net, s, n) == Free(net, t, n);
  }

  /** If no node depends on itself, what propagation arrives at is determined by what was given:
      not by the order of the changes, what the other values and flags were, or what waited. */
  lemma ResultIsDetermined(net: Net, depth: map<Node, nat>, level: map<Node, nat>, s: State, t: State) returns (j: nat, k: nat)
    requires net.Ok(depth) && StrictlyLayered(net, level) && SameInputs(net, s, t)
    requires Steady(net, s) && Noticed(net, s, {}) && Counted(net, s, {})
    requires Steady(net, t) && Noticed(net, t, {}) && Counted(net, t, {})
    ensures Quiet(Steps(net, s, j)) && Quiet(Steps(net, t, k))
    ensures Steps(net, s, j).active == Steps(net, t, k).active && Steps(net, s, j).values == Steps(net, t, k).values
  {
    hide Net.Ok, StrictlyLayered, Steady, Noticed, Counted, SameInputs, Quiet, Steps;
    AreLayered(net, level);
    hide Layered;
    j := EndsWhenLayered(net, depth, level, s);
    k := EndsWhenLayered(net, depth, level, t);
    var s', t' := Steps(net, s, j), Steps(net, t, k);
    RunKeeps(net, depth, s, j);
    RunKeeps(net, depth, t, k);
    RunCounts(net, depth, s, j);
    RunCounts(net, depth, t, k);
    QuietIsSolved(net, s');
    QuietIsSolved(net, t');
    RunInputs(net, depth, s, j);
    RunInputs(net, depth, t, k);
    InputsSymmetric(net, s, s');
    InputsTransitive(net, s', s, t);
    InputsTransitive(net, s', t, t');
    SolutionIsUnique(net, depth, level, s', t');
  }

  /** A hierarchy without references or interfaces is layered by its depth. */
  lemma PlainIsLayered(net: Net, depth: map<Node, nat>) returns (level: map<Node, nat>)
    requires net.tree.Ok(depth)
    requires forall x :: net.Referrers(x) == [] && net.Implemented(x) == []
    ensures StrictlyLayered(net, level)
  {
    hide View.Ok, Net.Referrers, Net.Implemented, Net.Depends, Level;
    var top := TopLevel(depth.Keys, depth);
    level := map n | n in depth :: top - Level(depth, n);
    forall u: Update, x | net.Depends(u, x) ensures Level(level, u.node) < Level(level, x) {
      DepthDrops(net, depth, level, top, u, x);
    }
  }

  lemma DepthDrops(net: Net, depth: map<Node, nat>, level: map<Node, nat>, top: nat, u: Update, x: Node)
    requires net.tree.Ok(depth) && net.Depends(u, x) && net.Referrers(x) == []
    requires level.Keys == depth.Keys && forall n :: n in depth ==> level[n] == top - Level(depth, n)
    ensures Level(level, u.node) < Level(level, x)
  {
    DepthRanks(net.tree, depth);
    hide View.Ok;
  }

  lemma DepthRanks(v: View, depth: map<Node, nat>)
    requires v.Ok(depth)
    ensures forall n :: n in v.up ==> n in depth && v.up[n] in depth && depth[v.up[n]] < depth[n]
  {
  }

  /** Propagation can only end where every flag is right and every value computed. */
  lemma EndsSolved(net: Net, depth: map<Node, nat>, s: State, k: nat)
    requires net.Ok(depth) && Steady(net, s) && Noticed(net, s, {}) && Quiet(Steps(net, s, k))
    ensures Solved(net, Steps(net, s, k)) && SameInputs(net, s, Steps(net, s, k)) && Steady(net, Steps(net, s, k))
  {
    hide Net.Ok, Steady, Noticed, SameInputs, Quiet, Solved, Steps;
    RunKeeps(net, depth, s, k);
    RunInputs(net, depth, s, k);
    QuietIsSolved(net, Steps(net, s, k));
  }
}
