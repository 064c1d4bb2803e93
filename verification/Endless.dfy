/** Where propagation does not end (ecos/host/libcdl/transact.cxx, value.cxx): if the active_if
    goals and default_value expressions of some nodes refer to each other in a circle, there are
    goals and expressions that nothing can satisfy, and then flags and values change for ever. */
module Endless {
  import opened Common
  import opened ParentMap
  import opened HierarchyView
  import opened HierarchyLaws
  import opened Propagation
  import opened Interfaces
  import opened Settling

  // ---------------------------------------------------------------- an example

  /** A package with two options. */
  lemma TwoOptions(top: Node, p: Node, a: Node, b: Node) returns (v: View, depth: map<Node, nat>)
    requires top.kind == Root && p.kind == Loadable && a.kind == Plain && b.kind == Plain
    requires p.name != a.name && p.name != b.name && a.name != b.name
    ensures v.Ok(depth) && v.root == top && v.nodes == {top, p, a, b} && v.attached == {p, a, b}
    ensures v.up == map[p := top, a := p, b := p]
  {
    hide View.Ok, View.Add;
    StartOk(top);
    v, depth := Start(top), map[top := 0];
    v, depth := OneMore(v, depth, p, top, p);
    v, depth := OneMore(v, depth, p, p, a);
    v, depth := OneMore(v, depth, p, p, b);
  }

  lemma OneMore(v: View, depth: map<Node, nat>, owner: Node, p: Node, n: Node) returns (w: View, depth': map<Node, nat>)
    requires v.Ok(depth) && n !in v.nodes && n.name !in v.table && n.kind != Root
    requires p in v.nodes && p.kind != Plain
    requires if n.kind == Loadable then owner == n else owner in v.nodes && owner.kind == Loadable
    ensures w.Ok(depth') && w.root == v.root && w.nodes == v.nodes + {n} && w.attached == v.attached + {n}
    ensures w.up == v.up[n := p] && w.table == v.table[n.name := n]
  {
    AddOk(v, depth, Some(owner), p, n);
    w, depth' := v.Add(Some(owner), p, n), depth[n := depth[p] + 1];
    hide View.Ok;
  }

  /** a wants to be active if b is not, b if a is. */
  function Quarrel(tree: View, a: Node, b: Node): Net {
    Net(tree, map[a := [Test(b)], b := [Test(a)]], {},
        (n: Node, active: set<Node>, values: map<Node, Value>) => if n == a then b !in active else n == b ==> a in active,
        (n: Node, active: set<Node>, values: map<Node, Value>) => Number(0), map[], map[])
  }

  lemma QuarrelOk(tree: View, depth: map<Node, nat>, a: Node, b: Node)
    requires tree.Ok(depth) && a in tree.attached && b in tree.attached && a != b
    requires forall n :: n in tree.up ==> Quarrel(tree, a, b).Loaded(n)
    ensures Quarrel(tree, a, b).Ok(depth)
  {
    hide View.Ok, Net.Loaded, Net.Local;
    AttachedUp(tree, depth);
    QuarrelLocal(tree, a, b);
  }

  lemma QuarrelLocal(tree: View, a: Node, b: Node)
    requires a != b
    ensures Quarrel(tree, a, b).Local()
  {
    var net := Quarrel(tree, a, b);
    assert net.Referrers(b) == [Test(a)] && net.Referrers(a) == [Test(b)];
    assert Test(a) in net.Referrers(b) && Test(b) in net.Referrers(a);
    hide Net.Referrers;
  }

  lemma AttachedUp(v: View, depth: map<Node, nat>)
    requires v.Ok(depth)
    ensures v.attached <= v.up.Keys
  {
  }

  /** Everything enabled and nothing active yet, and then each node tested once, as bind does. */
  ghost function JustLoaded(net: Net, top: Node, p: Node, a: Node, b: Node): State {
    AllUpdated(net, State({top}, map[p := BoolData(true, Number(1)), a := Bool(true), b := Bool(true)], {}, [], []),
               [Test(p), Test(a), Test(b)], 3)
  }

  /** No flags suit both. */
  lemma NoAgreement(net: Net, depth: map<Node, nat>, s: State, top: Node, p: Node, a: Node, b: Node)
    requires net == Quarrel(net.tree, a, b) && a != b && p != a && p != b && net.tree.root == top
    requires net.tree.up == map[p := top, a := p, b := p] && net.tree.attached == {p, a, b}
    requires top in s.active && top !in s.values && a in s.values && b in s.values && p in s.values && Enabled(s.values[p])
    ensures !Solved(net, s)
  {
    if Solved(net, s) {
      FlagFromParent(net, s, p);
      FlagFromParent(net, s, a);
      FlagFromParent(net, s, b);
    }
  }

  /** Two options whose goals contradict each other: propagation never ends. */
  lemma EndlessExample(top: Node, p: Node, a: Node, b: Node) returns (net: Net, depth: map<Node, nat>, s: State)
    requires top.kind == Root && p.kind == Loadable && a.kind == Plain && b.kind == Plain
    requires p.name != a.name && p.name != b.name && a.name != b.name
    ensures net.Ok(depth) && Steady(net, s) && Noticed(net, s, {})
    ensures net.Referrers(a) == [Test(b)] && net.Referrers(b) == [Test(a)]
    ensures forall k :: !Quiet(Steps(net, s, k))
  {
    hide Net.Ok, View.Ok, Steady, Noticed, Solved, Quiet, Steps, SameInputs, JustLoaded, Enabled;
    var v;
    v, depth := TwoOptions(top, p, a, b);
    net := Quarrel(v, a, b);
    QuarrelOk(v, depth, a, b);
    s := JustLoaded(net, top, p, a, b);
    LoadedNoticed(net, depth, top, p, a, b);
    forall k ensures !Quiet(Steps(net, s, k)) {
      if Quiet(Steps(net, s, k)) {
        EndsSolved(net, depth, s, k);
        StillEnabled(net, s, Steps(net, s, k), top, p, a, b);
        NoAgreement(net, depth, Steps(net, s, k), top, p, a, b);
      }
    }
  }

  lemma StillEnabled(net: Net, s: State, t: State, top: Node, p: Node, a: Node, b: Node)
    requires SameInputs(net, s, t) && Steady(net, t) && net.tree.root == top && Free(net, s, p)
    requires p in s.values && s.values[p] == BoolData(true, Number(1)) && a in s.values && b in s.values
    ensures top in t.active && top !in t.values && a in t.values && b in t.values && p in t.values && Enabled(t.values[p])
  {
  }

  lemma LoadedNoticed(net: Net, depth: map<Node, nat>, top: Node, p: Node, a: Node, b: Node)
    requires net.Ok(depth) && net.tree.root == top && net.tree.nodes == {top, p, a, b} && net.tree.attached == {p, a, b}
    requires net.tree.up == map[p := top, a := p, b := p] && net.computed == {} && net.implementers == map[]
    requires top != p && top != a && top != b && p != a && p != b
    ensures Steady(net, JustLoaded(net, top, p, a, b)) && Noticed(net, JustLoaded(net, top, p, a, b), {})
    ensures var t := JustLoaded(net, top, p, a, b);
      Free(net, t, p) && p in t.values && t.values[p] == BoolData(true, Number(1)) && a in t.values && b in t.values
  {
    hide View.Ok, Net.Local, Net.RefsOk, AllUpdated, SameFlavor, Steady, Noticed, SameInputs, Relevant, Free;
    var s := State({top}, map[p := BoolData(true, Number(1)), a := Bool(true), b := Bool(true)], {}, [], []);
    var tests := [Test(p), Test(a), Test(b)];
    TreeFacts(net.tree, depth);
    NotLoadedYet(net, s, top, p, a, b);
    AllUpdatedKeeps(net, s, tests, 3);
    assert ToSet(tests[3..]) == {};
    AllUpdatedSteady(net, s, tests, 3);
    AllUpdatedInputs(net, s, tests, 3);
    InputsCarry(net, s, JustLoaded(net, top, p, a, b), p, a, b);
  }

  lemma NotLoadedYet(net: Net, s: State, top: Node, p: Node, a: Node, b: Node)
    requires net.tree.root == top && net.tree.up == map[p := top, a := p, b := p] && net.tree.attached == {p, a, b}
    requires net.tree.nodes == {top, p, a, b} && net.computed == {} && net.implementers == map[]
    requires top in s.active && s.values.Keys == {p, a, b} && top !in s.values && Waiting(s) == []
    ensures var tests := [Test(p), Test(a), Test(b)];
      Noticed(net, s, ToSet(tests)) && forall u :: u in tests ==> Relevant(net, u)
    ensures Steady(net, s) && Free(net, s, p)
  {
    var tests := [Test(p), Test(a), Test(b)];
    forall u | Relevant(net, u) ensures u in tests {
      assert u in [Test(p), Test(a), Test(b)] <==> u == Test(p) || u == Test(a) || u == Test(b);
    }
    hide Right, Excused;
  }

  lemma InputsCarry(net: Net, s: State, t: State, p: Node, a: Node, b: Node)
    requires SameInputs(net, s, t) && Free(net, s, p) && p in s.values && a in s.values && b in s.values
    ensures Free(net, t, p) && p in t.values && t.values[p] == s.values[p] && a in t.values && b in t.values
  {
  }

  // ---------------------------------------------------------------- more than one result

  /** Two interfaces that implement each other. */
  function Circle(tree: View, a: Node, b: Node): Net {
    Net(tree, map[], {}, (n: Node, active: set<Node>, values: map<Node, Value>) => true,
        (n: Node, active: set<Node>, values: map<Node, Value>) => Number(0), map[a := [b], b := [a]], map[a := [b], b := [a]])
  }

  /** Everything active, and both interfaces enabled, or both not. */
  function Both(top: Node, p: Node, a: Node, b: Node, on: bool): State {
    State({top, p, a, b}, map[p := BoolData(true, Number(1)), a := Bool(on), b := Bool(on)], {}, [], [])
  }

  lemma BothSolve(net: Net, top: Node, p: Node, a: Node, b: Node, on: bool)
    requires net == Circle(net.tree, a, b) && a != b && p != a && p != b && top != p && top != a && top != b
    requires net.tree.root == top && net.tree.nodes == {top, p, a, b} && net.tree.attached == {p, a, b}
    requires net.tree.up == map[p := top, a := p, b := p]
    ensures var s := Both(top, p, a, b, on); Steady(net, s) && Solved(net, s) && Counted(net, s, {}) && Quiet(s)
  {
    var s := Both(top, p, a, b, on);
    assert Count(s, [a][..0]) == 0 && Count(s, [b][..0]) == 0;
    assert net.Implementers(a) == [b] && net.Implementers(b) == [a];
  }

  /** With such interfaces there are two results for the same values given: nothing is left to do
      in either of them, and in one the interfaces are enabled, for no other reason than that
      they are. */
  lemma TwoResults(top: Node, p: Node, a: Node, b: Node) returns (net: Net, depth: map<Node, nat>, s: State, t: State)
    requires top.kind == Root && p.kind == Loadable && a.kind == Plain && b.kind == Plain
    requires p.name != a.name && p.name != b.name && a.name != b.name
    ensures net.Ok(depth) && net.Implemented(a) == [b] && net.Implemented(b) == [a] && SameInputs(net, s, t)
    ensures Steady(net, s) && Solved(net, s) && Counted(net, s, {}) && Quiet(s)
    ensures Steady(net, t) && Solved(net, t) && Counted(net, t, {}) && Quiet(t) && s.values != t.values
  {
    hide View.Ok, Steady, Solved, Counted;
    var v;
    v, depth := TwoOptions(top, p, a, b);
    net := Circle(v, a, b);
    s, t := Both(top, p, a, b, false), Both(top, p, a, b, true);
    BothSolve(net, top, p, a, b, false);
    BothSolve(net, top, p, a, b, true);
    assert s.values[a] != t.values[a];
  }

  // ---------------------------------------------------------------- circles

  /** The flag or value of n depends on x, if not directly then through the nodes between them. */
  ghost predicate Leads(net: Net, x: Node, n: Node) {
    Below(net.tree.up, n, x) || Test(n) in net.Referrers(x) || Compute(n) in net.Referrers(x)
  }

  /** Each of these nodes depends on another of them, or on itself. */
  ghost predicate Trap(net: Net, d: set<Node>) {
    d != {} && forall n :: n in d ==> Caught(net, d, n)
  }

  ghost predicate Caught(net: Net, d: set<Node>, n: Node) {
    exists x :: x in d && Leads(net, x, n)
  }

  ghost predicate MinimalTrap(net: Net, d: set<Node>) {
    Trap(net, d) && forall e :: e < d ==> !Trap(net, e)
  }

  lemma {:induction false} SmallestTrap(net: Net, d: set<Node>) returns (m: set<Node>)
    requires Trap(net, d)
    ensures MinimalTrap(net, m) && m <= d
    decreases d
  {
    hide Trap;
    if e :| e < d && Trap(net, e) {
      m := SmallestTrap(net, e);
    } else {
      m := d;
    }
  }

  lemma DirectLeads(net: Net, u: Update, x: Node)
    requires net.Depends(u, x)
    ensures Leads(net, x, u.node)
  {
    BelowStep(net.tree.up, u.node, x);
    if u in net.Referrers(x) {
      assert u == Test(u.node) || u == Compute(u.node);
    }
    hide Below;
  }

  /** Some nodes can be put on levels, or there is a trap among them. */
  lemma {:induction false} LayersOrTrap(net: Net, s: set<Node>) returns (level: map<Node, nat>, d: set<Node>)
    ensures Trap(net, d) ||
      forall u: Update, x :: u.node in s && x in s && net.Depends(u, x) ==> Level(level, u.node) < Level(level, x)
    decreases s
  {
    hide Leads, Net.Depends, Level;
    level, d := map[], s;
    if n :| n in s && forall x :: x in s ==> !Leads(net, x, n) {
      var most;
      most, d := LayersOrTrap(net, s - {n});
      var top := TopLevel(s, most);
      level := most[n := top + 1];
      forall u: Update, x | u.node in s && x in s && net.Depends(u, x) && !Trap(net, d)
        ensures Level(level, u.node) < Level(level, x)
      {
        DirectLeads(net, u, x);
        LevelAbove(most, n, top, u.node, x);
      }
    }
  }

  lemma LevelAbove(level: map<Node, nat>, n: Node, top: nat, m: Node, x: Node)
    requires m != n && (x != n ==> Level(level, m) < Level(level, x)) && Level(level, m) <= top
    ensures Level(level[n := top + 1], m) < Level(level[n := top + 1], x)
  {
  }

  // ---------------------------------------------------------------- expressions nothing satisfies

  /** The nodes of d that the expression of u refers to. */
  function Refs(net: Net, d: set<Node>, u: Update): set<Node> {
    set x | x in d && u in net.Referrers(x)
  }

  /** In d, everything asks for what it refers to to be up, r for the opposite. */
  predicate Agrees(net: Net, d: set<Node>, r: Node, up: set<Node>, u: Update) {
    u.node in d && Refs(net, d, u) != {} ==> (Refs(net, d, u) <= up) != (u.node == r)
  }

  /** The nodes that are active and enabled. */
  function Up(active: set<Node>, values: map<Node, Value>): set<Node> {
    set x | x in active && x in values && Enabled(values[x])
  }

  /** The same references in other goals and expressions. */
  function Rewritten(net: Net, goals: (Node, set<Node>, map<Node, Value>) -> bool,
                     results: (Node, set<Node>, map<Node, Value>) -> Datum): Net {
    net.(goals := goals, results := results)
  }

  function Contrary(net: Net, d: set<Node>, r: Node): Net {
    Rewritten(net,
              (n: Node, active: set<Node>, values: map<Node, Value>) => Agrees(net, d, r, Up(active, values), Test(n)),
              (n: Node, active: set<Node>, values: map<Node, Value>) =>
                if Agrees(net, d, r, Up(active, values), Compute(n)) then Number(1) else Number(0))
  }

  lemma ContraryOk(net: Net, depth: map<Node, nat>, d: set<Node>, r: Node)
    requires net.Ok(depth)
    ensures Contrary(net, d, r).Ok(depth)
  {
    hide View.Ok, Net.RefsOk;
    ContraryRefs(net, d, r);
    ContraryLocal(net, d, r);
  }

  lemma ContraryRefs(net: Net, d: set<Node>, r: Node)
    requires net.RefsOk()
    ensures Contrary(net, d, r).RefsOk()
  {
    var c := Contrary(net, d, r);
    assert forall x :: c.Referrers(x) == net.Referrers(x) && c.Implemented(x) == net.Implemented(x);
    assert forall x :: c.Implementers(x) == net.Implementers(x) && c.Loaded(x) == net.Loaded(x);
    hide Net.Referrers, Net.Implemented, Net.Implementers, Net.Loaded;
  }

  lemma ContraryLocal(net: Net, d: set<Node>, r: Node)
    ensures Contrary(net, d, r).Local()
  {
    hide Contrary, Net.SameFor;
    var c := Contrary(net, d, r);
    forall n: Node, a: set<Node>, v: map<Node, Value>, b: set<Node>, w: map<Node, Value>
      ensures c.SameFor(Test(n), a, v, b, w) ==> c.goals(n, a, v) == c.goals(n, b, w)
      ensures c.SameFor(Compute(n), a, v, b, w) ==> c.results(n, a, v) == c.results(n, b, w)
    {
      ContraryPoint(net, d, r, n, a, v, b, w);
    }
  }

  lemma ContraryPoint(net: Net, d: set<Node>, r: Node, n: Node,
                      a: set<Node>, v: map<Node, Value>, b: set<Node>, w: map<Node, Value>)
    ensures var c := Contrary(net, d, r);
      && (c.SameFor(Test(n), a, v, b, w) ==> c.goals(n, a, v) == c.goals(n, b, w))
      && (c.SameFor(Compute(n), a, v, b, w) ==> c.results(n, a, v) == c.results(n, b, w))
  {
    hide Net.SameFor, Agrees, Up;
    SameAgrees(net, d, r, Test(n), a, v, b, w);
    SameAgrees(net, d, r, Compute(n), a, v, b, w);
  }

  lemma SameAgrees(net: Net, d: set<Node>, r: Node, u: Update,
                   a: set<Node>, v: map<Node, Value>, b: set<Node>, w: map<Node, Value>)
    ensures Contrary(net, d, r).SameFor(u, a, v, b, w) ==> Agrees(net, d, r, Up(a, v), u) == Agrees(net, d, r, Up(b, w), u)
  {
    var c := Contrary(net, d, r);
    hide Enabled;
    assert forall x :: c.Referrers(x) == net.Referrers(x);
    if c.SameFor(u, a, v, b, w) {
      assert Refs(net, d, u) <= Up(a, v) <==> Refs(net, d, u) <= Up(b, w);
    }
  }

  /** Nothing is unloaded at the moment. */
  ghost predicate AllLoaded(net: Net) {
    forall n :: n in net.tree.up ==> net.Loaded(n)
  }

  /** Flags and enabled values that are as the hierarchy and the contrary expressions ask for. */
  ghost predicate Lawful(net: Net, d: set<Node>, r: Node, active: set<Node>, on: set<Node>) {
    && net.tree.root in active * on
    && (forall n :: n in net.tree.up ==>
          (n in active <==> net.tree.up[n] in active * on && Agrees(net, d, r, active * on, Test(n))))
    && (forall n :: n in net.tree.up ==>
          (n in on <==> (n in net.computed ==> Agrees(net, d, r, active * on, Compute(n)))))
  }

  /** All values are boolean and none is given. */
  ghost predicate Boolean(net: Net, s: State) {
    && s.given == {} && s.values.Keys == net.tree.nodes - {net.tree.root}
    && (forall n :: n in s.values ==> s.values[n].Bool? && (n !in net.computed ==> s.values[n].on))
  }

  function On(net: Net, s: State): set<Node> {
    {net.tree.root} + set x | x in s.values && Enabled(s.values[x])
  }

  lemma AgreesUp(net: Net, d: set<Node>, r: Node, s: State, u: Update)
    requires net.tree.root !in d
    ensures Agrees(net, d, r, Up(s.active, s.values), u) == Agrees(net, d, r, s.active * On(net, s), u)
  {
    hide Enabled;
    assert Refs(net, d, u) <= Up(s.active, s.values) <==> Refs(net, d, u) <= s.active * On(net, s);
  }

  lemma SolvedIsLawful(net: Net, d: set<Node>, r: Node, s: State)
    requires AllLoaded(net) && Solved(Contrary(net, d, r), s) && net.tree.root in s.active && Boolean(net, s)
    requires net.tree.attached <= net.tree.up.Keys <= net.tree.nodes - {net.tree.root} && d <= net.tree.up.Keys
    ensures Lawful(net, d, r, s.active, On(net, s))
  {
    hide Solved, Agrees, Up, Net.Loaded;
    var c := Contrary(net, d, r);
    forall n | n in net.tree.up
      ensures n in s.active <==> net.tree.up[n] in s.active * On(net, s) && Agrees(net, d, r, s.active * On(net, s), Test(n))
    {
      SameLoaded(net, d, r, n);
      FlagFromParent(c, s, n);
      AgreesUp(net, d, r, s, Test(n));
    }
    forall n | n in net.tree.up
      ensures n in On(net, s) <==> (n in net.computed ==> Agrees(net, d, r, s.active * On(net, s), Compute(n)))
    {
      if n in net.computed {
        ValueFromResult(c, s, n);
        AgreesUp(net, d, r, s, Compute(n));
      }
    }
  }

  lemma ValueFromResult(net: Net, s: State, n: Node)
    requires Solved(net, s) && n in net.computed && n in s.values && n !in s.given
    ensures s.values[n] == Set(s.values[n], net.results(n, s.active, s.values))
  {
    assert Right(net, s, Compute(n));
  }

  lemma SameLoaded(net: Net, d: set<Node>, r: Node, n: Node)
    ensures Contrary(net, d, r).Loaded(n) == net.Loaded(n)
    ensures net.Loaded(n) ==> net.tree.up[n] == net.tree.root || net.tree.up[n] in net.tree.attached
  {
  }

  // ---------------------------------------------------------------- all of a trap, or nothing

  lemma {:induction false} AboveUp(net: Net, depth: map<Node, nat>, d: set<Node>, r: Node, active: set<Node>, on: set<Node>,
                                   n: Node, x: Node)
    requires Ranked(net.tree.up, depth) && Lawful(net, d, r, active, on) && n in active && Below(net.tree.up, n, x)
    ensures x in active * on
    decreases Level(depth, n)
  {
    hide Below, Agrees;
    BelowStep(net.tree.up, n, x);
    if net.tree.up[n] != x {
      AboveUp(net, depth, d, r, active, on, net.tree.up[n], x);
    }
  }

  /** The hierarchy of loaded nodes, as far as it matters here. */
  ghost predicate Rooted(v: View, depth: map<Node, nat>) {
    Ranked(v.up, depth) && forall n :: n in v.up ==> v.up[n] == v.root || v.up[n] in v.up
  }

  /** A node outside d that is not up is below such a node of d. */
  lemma {:induction false} DownAbove(net: Net, depth: map<Node, nat>, d: set<Node>, r: Node,
                                     active: set<Node>, on: set<Node>, n: Node)
    returns (q: Node)
    requires Rooted(net.tree, depth) && Lawful(net, d, r, active, on) && n in net.tree.up && n !in active * on && n !in d
    ensures q in d && q !in active * on && Below(net.tree.up, n, q)
    decreases Level(depth, n)
  {
    hide Below;
    assert Agrees(net, d, r, active * on, Test(n)) && Agrees(net, d, r, active * on, Compute(n));
    var p := net.tree.up[n];
    if p in d {
      q := p;
    } else {
      q := DownAbove(net, depth, d, r, active, on, p);
    }
    BelowStep(net.tree.up, n, q);
  }

  /** What is not below anything in d has a parent that is up. */
  lemma {:induction false} ParentUp(net: Net, depth: map<Node, nat>, d: set<Node>, r: Node,
                                    active: set<Node>, on: set<Node>, n: Node)
    requires Rooted(net.tree, depth) && Lawful(net, d, r, active, on) && n in net.tree.up
    requires forall x :: x in d ==> !Below(net.tree.up, n, x)
    ensures net.tree.up[n] in active * on
    decreases Level(depth, n)
  {
    hide Below;
    var p := net.tree.up[n];
    forall x ensures Below(net.tree.up, n, x) <==> p == x || Below(net.tree.up, p, x) {
      BelowStep(net.tree.up, n, x);
    }
    if p != net.tree.root {
      ParentUp(net, depth, d, r, active, on, p);
      assert Agrees(net, d, r, active * on, Test(p)) && Agrees(net, d, r, active * on, Compute(p));
    }
  }

  lemma CaughtBy(net: Net, d: set<Node>, n: Node, x: Node)
    requires x in d && Leads(net, x, n)
    ensures Caught(net, d, n)
  {
  }

  lemma LeadIn(net: Net, d: set<Node>, n: Node) returns (x: Node)
    requires Trap(net, d) && n in d
    ensures x in d && Leads(net, x, n)
  {
    hide Leads;
    x :| x in d && Leads(net, x, n);
  }

  /** Only nodes with an expression of their own are computed from others. */
  ghost predicate ComputesOk(net: Net) {
    forall n, x :: Compute(n) in net.Referrers(x) ==> n in net.computed
  }

  /** What a node other than r that is up depends on in d is up, too. */
  lemma UpStep(net: Net, depth: map<Node, nat>, d: set<Node>, r: Node, active: set<Node>, on: set<Node>, n: Node, x: Node)
    requires Ranked(net.tree.up, depth) && Lawful(net, d, r, active, on) && n in net.tree.up && ComputesOk(net)
    requires n in d && n in active * on && n != r && x in d && Leads(net, x, n)
    ensures x in active * on
  {
    hide Below;
    if Below(net.tree.up, n, x) {
      AboveUp(net, depth, d, r, active, on, n, x);
    } else if Test(n) in net.Referrers(x) {
      assert x in Refs(net, d, Test(n)) && Agrees(net, d, r, active * on, Test(n));
    } else {
      assert x in Refs(net, d, Compute(n)) && Agrees(net, d, r, active * on, Compute(n));
    }
  }

  /** A node other than r that is not up depends on another one in d. */
  lemma DownStep(net: Net, depth: map<Node, nat>, d: set<Node>, r: Node, active: set<Node>, on: set<Node>, n: Node)
    returns (x: Node)
    requires Rooted(net.tree, depth) && Lawful(net, d, r, active, on) && n in net.tree.up
    requires n in d && n !in active * on && n != r
    ensures x in d && x !in active * on && Leads(net, x, n)
  {
    hide Below;
    if !Agrees(net, d, r, active * on, Test(n)) {
      x :| x in Refs(net, d, Test(n)) && x !in active * on;
    } else if n in net.computed && !Agrees(net, d, r, active * on, Compute(n)) {
      x :| x in Refs(net, d, Compute(n)) && x !in active * on;
    } else {
      var p := net.tree.up[n];
      BelowStep(net.tree.up, n, p);
      if p in d {
        x := p;
      } else {
        x := DownAbove(net, depth, d, r, active, on, p);
        BelowStep(net.tree.up, n, x);
      }
    }
  }

  lemma UpTrap(net: Net, depth: map<Node, nat>, d: set<Node>, r: Node, active: set<Node>, on: set<Node>)
    requires Ranked(net.tree.up, depth) && Lawful(net, d, r, active, on) && ComputesOk(net)
    requires Trap(net, d) && d <= net.tree.up.Keys && r !in active * on
    ensures d * (active * on) == {} || Trap(net, d * (active * on))
  {
    hide Leads, Lawful, Ranked, Caught, ComputesOk;
    var up := active * on;
    forall n | n in d * up ensures Caught(net, d * up, n) {
      var x := LeadIn(net, d, n);
      UpStep(net, depth, d, r, active, on, n, x);
      CaughtBy(net, d * up, n, x);
    }
  }

  lemma DownTrap(net: Net, depth: map<Node, nat>, d: set<Node>, r: Node, active: set<Node>, on: set<Node>)
    requires Rooted(net.tree, depth) && Lawful(net, d, r, active, on)
    requires Trap(net, d) && d <= net.tree.up.Keys && r in active * on
    ensures d - active * on == {} || Trap(net, d - active * on)
  {
    hide Leads, Lawful, Rooted, Caught;
    var up := active * on;
    forall n | n in d - up ensures Caught(net, d - up, n) {
      var x := DownStep(net, depth, d, r, active, on, n);
      CaughtBy(net, d - up, n, x);
    }
  }

  lemma Apart(d: set<Node>, up: set<Node>)
    ensures d - up == {} <==> d <= up
    ensures d * up == {} <==> d !! up
  {
    assert forall n :: n in d - up <==> n in d && n !in up;
    assert forall n :: n in d * up <==> n in d && n in up;
  }

  /** No smaller trap: the nodes of d are all up, or none is. */
  lemma AllOrNone(net: Net, depth: map<Node, nat>, d: set<Node>, r: Node, active: set<Node>, on: set<Node>)
    requires Rooted(net.tree, depth) && MinimalTrap(net, d) && r in d && d <= net.tree.up.Keys
    requires Lawful(net, d, r, active, on) && ComputesOk(net)
    ensures if r in active * on then d <= active * on else d !! active * on
  {
    hide Trap, Lawful, Ranked, ComputesOk;
    var up := active * on;
    Apart(d, up);
    if r in up {
      DownTrap(net, depth, d, r, active, on);
      assert d - up <= d && r !in d - up;
      assert d - up == {};
    } else {
      UpTrap(net, depth, d, r, active, on);
      assert d * up <= d && r !in d * up;
      assert d * up == {};
    }
  }

  lemma NothingLawful(net: Net, depth: map<Node, nat>, d: set<Node>, r: Node, active: set<Node>, on: set<Node>)
    requires Rooted(net.tree, depth) && MinimalTrap(net, d) && r in d && d <= net.tree.up.Keys && ComputesOk(net)
    requires forall x :: x in d ==> !Below(net.tree.up, r, x)
    ensures !Lawful(net, d, r, active, on)
  {
    hide Trap, Rooted, Below, ComputesOk;
    if Lawful(net, d, r, active, on) {
      AllOrNone(net, depth, d, r, active, on);
      var x := LeadIn(net, d, r);
      ParentUp(net, depth, d, r, active, on, r);
      Contradicts(net, d, r, active, on, x);
    }
  }

  lemma Contradicts(net: Net, d: set<Node>, r: Node, active: set<Node>, on: set<Node>, x: Node)
    requires r in d && r in net.tree.up && x in d && (Test(r) in net.Referrers(x) || Compute(r) in net.Referrers(x))
    requires net.tree.up[r] in active * on && ComputesOk(net)
    requires if r in active * on then d <= active * on else d !! active * on
    ensures !Lawful(net, d, r, active, on)
  {
    var up := active * on;
    assert x in Refs(net, d, Test(r)) || x in Refs(net, d, Compute(r));
    if r in up {
      assert Refs(net, d, Test(r)) <= up && Refs(net, d, Compute(r)) <= up;
    } else {
      NoneOf(Refs(net, d, Test(r)), up);
      NoneOf(Refs(net, d, Compute(r)), up);
      assert Agrees(net, d, r, up, Test(r)) && Agrees(net, d, r, up, Compute(r));
    }
  }

  lemma NoneOf(s: set<Node>, up: set<Node>)
    requires s !! up
    ensures s == {} || !(s <= up)
  {
  }

  // ---------------------------------------------------------------- exactly when propagation ends

  ghost predicate NoInterfaces(net: Net) {
    forall n :: net.Implemented(n) == []
  }

  function Computes(s: seq<Node>): seq<Update> {
    seq(|s|, i requires 0 <= i < |s| => Compute(s[i]))
  }

  lemma ComputesOf(s: seq<Node>, u: Update)
    ensures u in Computes(s) <==> u.Compute? && u.node in s
  {
    if u.Compute? && u.node in s {
      var i :| 0 <= i < |s| && s[i] == u.node;
      assert Computes(s)[i] == u;
    }
  }

  /** Everything there is to do. */
  ghost function Everything(net: Net): seq<Update> {
    Computes(Listing(net.computed)) + Tests(Listing(net.tree.up.Keys))
  }

  lemma EverythingRelevant(net: Net)
    requires AllLoaded(net)
    ensures forall u :: u in Everything(net) <==> Relevant(net, u)
  {
    hide Tests, Computes;
    forall u ensures u in Everything(net) <==> Relevant(net, u) {
      TestsOf(Listing(net.tree.up.Keys), u);
      ComputesOf(Listing(net.computed), u);
    }
  }

  /** Everything loaded, with a value and enabled, and each default and flag evaluated once, as
      bind does. */
  ghost function AllBound(net: Net): State {
    AllUpdated(net, Enabling(net), Everything(net), |Everything(net)|)
  }

  function Enabling(net: Net): State {
    State({net.tree.root}, map n | n in net.tree.nodes && n != net.tree.root :: Bool(true), {}, [], [])
  }

  lemma EnablingNoticed(net: Net, depth: map<Node, nat>)
    requires net.tree.Ok(depth) && AllLoaded(net)
    ensures Steady(net, Enabling(net)) && Noticed(net, Enabling(net), ToSet(Everything(net)))
    ensures forall u :: u in Everything(net) ==> Relevant(net, u)
  {
    hide View.Ok, Everything, AllLoaded, Right, Excused, Relevant;
    EverythingRelevant(net);
    TreeFacts(net.tree, depth);
  }

  lemma TestsAreUp(net: Net, u: Update)
    requires Relevant(net, u) && u.Test?
    ensures u.node in net.tree.up
  {
  }

  lemma BoundNoticed(net: Net, depth: map<Node, nat>)
    requires net.Ok(depth) && AllLoaded(net)
    ensures var s := AllBound(net);
      Steady(net, s) && Noticed(net, s, {}) && SameInputs(net, Enabling(net), s)
  {
    hide View.Ok, Net.Local, Net.RefsOk, Everything, AllLoaded, Enabling;
    hide AllUpdated, Steady, Noticed, Relevant, SameInputs;
    EnablingNoticed(net, depth);
    TreeFacts(net.tree, depth);
    var s, updates := Enabling(net), Everything(net);
    forall u | u in updates && u.Test? ensures u.node in net.tree.up {
      TestsAreUp(net, u);
    }
    AllUpdatedKeeps(net, s, updates, |updates|);
    assert ToSet(updates[|updates|..]) == {};
    AllUpdatedSteady(net, s, updates, |updates|);
    AllUpdatedInputs(net, s, updates, |updates|);
  }

  /** Without interfaces, values without an expression stay as they are, and flavors do. */
  lemma StaysBoolean(net: Net, t: State)
    requires NoInterfaces(net) && net.RefsOk() && SameInputs(net, Enabling(net), t)
    ensures Boolean(net, t)
  {
    var s := Enabling(net);
    forall n ensures net.Implementers(n) == [] {
      FirstImplementer(net, n);
    }
    hide NoInterfaces, Net.RefsOk, Net.Implementers;
    assert s.values.Keys == net.tree.nodes - {net.tree.root};
    forall n | n in t.values ensures t.values[n].Bool? && (n !in net.computed ==> t.values[n].on) {
      assert SameFlavor(s.values[n], t.values[n]) && s.values[n] == Bool(true);
    }
  }

  lemma FirstImplementer(net: Net, i: Node)
    requires net.RefsOk()
    ensures net.Implementers(i) != [] ==> net.Implemented(net.Implementers(i)[0]) != []
  {
    if net.Implementers(i) != [] {
      assert i in net.Implemented(net.Implementers(i)[0]);
    }
  }

  lemma SameStructure(net: Net, goals: (Node, set<Node>, map<Node, Value>) -> bool,
                      results: (Node, set<Node>, map<Node, Value>) -> Datum)
    ensures var c := Rewritten(net, goals, results);
      && c.tree == net.tree && c.computed == net.computed
      && (NoInterfaces(net) ==> NoInterfaces(c)) && (AllLoaded(net) ==> AllLoaded(c))
  {
    var c := Rewritten(net, goals, results);
    assert forall x :: c.Implemented(x) == net.Implemented(x) && c.Loaded(x) == net.Loaded(x);
    hide Net.Implemented, Net.Loaded;
  }

  lemma {:induction false} Shallowest(d: set<Node>, depth: map<Node, nat>) returns (r: Node)
    requires d != {}
    ensures r in d && forall n :: n in d ==> Level(depth, r) <= Level(depth, n)
    decreases d
  {
    r :| r in d;
    assert forall n :: n in d ==> n == r || n in d - {r};
    if d - {r} != {} {
      var m := Shallowest(d - {r}, depth);
      r := if Level(depth, m) < Level(depth, r) then m else r;
    }
  }

  lemma TrappedUp(net: Net, d: set<Node>)
    requires Trap(net, d) && net.RefsOk()
    ensures d <= net.tree.up.Keys
  {
    hide Net.RefsOk, Below, Trap, Net.Referrers;
    forall n | n in d ensures n in net.tree.up {
      var x := LeadIn(net, d, n);
      BelowStep(net.tree.up, n, x);
      RefersUp(net, Test(n), x);
      RefersUp(net, Compute(n), x);
    }
  }

  lemma RefersUp(net: Net, u: Update, x: Node)
    requires net.RefsOk()
    ensures u in net.Referrers(x) ==> u.node in net.tree.up && x in net.tree.attached
  {
  }

  lemma NotBelowShallowest(net: Net, depth: map<Node, nat>, d: set<Node>, r: Node)
    requires Ranked(net.tree.up, depth) && d <= net.tree.up.Keys && r in d
    requires forall n :: n in d ==> Level(depth, r) <= Level(depth, n)
    ensures forall x :: x in d ==> !Below(net.tree.up, r, x)
  {
    hide Below;
    forall x | x in d ensures !Below(net.tree.up, r, x) {
      if Below(net.tree.up, r, x) {
        BelowIsDeeper(net.tree.up, depth, r, x);
      }
    }
  }

  lemma IsRooted(v: View, depth: map<Node, nat>)
    requires v.Ok(depth)
    ensures Ranked(v.up, depth) && v.attached <= v.up.Keys <= v.nodes - {v.root}
  {
  }

  /** In a trap, contrary goals and expressions leave no solution, so propagation cannot end. */
  lemma TrapNeverEnds(net: Net, depth: map<Node, nat>, trap: set<Node>) returns (d: set<Node>, r: Node, s: State)
    requires net.Ok(depth) && NoInterfaces(net) && AllLoaded(net) && Trap(net, trap)
    ensures var c := Contrary(net, d, r);
      c.Ok(depth) && Steady(c, s) && Noticed(c, s, {}) && forall k :: !Quiet(Steps(c, s, k))
  {
    hide View.Ok, Net.Local, Net.RefsOk, Trap, Leads, NoInterfaces, AllBound, Enabling, Lawful;
    hide Steady, Noticed, Solved, SameInputs, Quiet, Steps;
    d := SmallestTrap(net, trap);
    r := Chosen(net, depth, d);
    var c := Contrary(net, d, r);
    ContraryOk(net, depth, d, r);
    SameStructure(net, c.goals, c.results);
    BoundNoticed(c, depth);
    s := AllBound(c);
    forall k ensures !Quiet(Steps(c, s, k)) {
      if Quiet(Steps(c, s, k)) {
        EndsSolved(c, depth, s, k);
        InputsTransitive(c, Enabling(c), s, Steps(c, s, k));
        NotSolved(net, depth, d, r, Steps(c, s, k));
      }
    }
  }

  lemma Chosen(net: Net, depth: map<Node, nat>, d: set<Node>) returns (r: Node)
    requires net.Ok(depth) && AllLoaded(net) && MinimalTrap(net, d)
    ensures r in d && d <= net.tree.up.Keys && Rooted(net.tree, depth) && forall x :: x in d ==> !Below(net.tree.up, r, x)
  {
    hide View.Ok, Net.Local, Net.RefsOk, Leads, Below;
    IsRooted(net.tree, depth);
    TrappedUp(net, d);
    r := Shallowest(d, depth);
    NotBelowShallowest(net, depth, d, r);
  }

  lemma RefsCompute(net: Net)
    requires net.RefsOk()
    ensures ComputesOk(net)
  {
    assert forall u: Update, x :: u in net.Referrers(x) && u.Compute? ==> u.node in net.computed;
  }

  lemma NotSolved(net: Net, depth: map<Node, nat>, d: set<Node>, r: Node, t: State)
    requires net.Ok(depth) && NoInterfaces(net) && AllLoaded(net) && MinimalTrap(net, d) && Contrary(net, d, r).RefsOk()
    requires r in d && d <= net.tree.up.Keys && Rooted(net.tree, depth) && forall x :: x in d ==> !Below(net.tree.up, r, x)
    requires SameInputs(Contrary(net, d, r), Enabling(Contrary(net, d, r)), t) && Steady(Contrary(net, d, r), t)
    ensures !Solved(Contrary(net, d, r), t)
  {
    hide View.Ok, Net.Local, Net.RefsOk, MinimalTrap, NoInterfaces, SameInputs, Solved, Below, Lawful, AllLoaded, Agrees, Rooted;
    hide Boolean, ComputesOk;
    var c := Contrary(net, d, r);
    SameStructure(net, c.goals, c.results);
    StaysBoolean(c, t);
    SameBoolean(net, c, t);
    IsRooted(net.tree, depth);
    RefsCompute(net);
    NothingLawful(net, depth, d, r, t.active, On(net, t));
    if Solved(c, t) {
      SolvedIsLawful(net, d, r, t);
    }
  }

  lemma SameBoolean(net: Net, c: Net, t: State)
    requires c.tree == net.tree && c.computed == net.computed
    ensures Boolean(c, t) == Boolean(net, t)
  {
  }

  ghost predicate EndsFrom(net: Net, depth: map<Node, nat>, s: State) {
    net.Ok(depth) && Steady(net, s) && Noticed(net, s, {}) ==> exists k :: Quiet(Steps(net, s, k))
  }

  /** Whatever the goals and expressions say, as long as they refer to the same nodes, and
      wherever it starts, propagation ends. */
  ghost predicate AlwaysEnds(net: Net, depth: map<Node, nat>) {
    forall goals: (Node, set<Node>, map<Node, Value>) -> bool, results: (Node, set<Node>, map<Node, Value>) -> Datum, s ::
      EndsFrom(Rewritten(net, goals, results), depth, s)
  }

  /** The references alone guarantee that propagation ends exactly if no node depends on itself. */
  lemma EndsExactly(net: Net, depth: map<Node, nat>)
    requires net.Ok(depth) && NoInterfaces(net) && AllLoaded(net)
    ensures (exists level :: Layered(net, level)) <==> AlwaysEnds(net, depth)
  {
    hide Net.Ok, NoInterfaces, AllLoaded, Trap, Layered, EndsFrom, Rewritten, Contrary;
    var level, d := Layers(net, depth);
    if Layered(net, level) {
      forall goals: (Node, set<Node>, map<Node, Value>) -> bool, results: (Node, set<Node>, map<Node, Value>) -> Datum, s
        ensures EndsFrom(Rewritten(net, goals, results), depth, s)
      {
        LayeredEnds(net, goals, results, depth, level, s);
      }
    } else {
      var e, r, s := TrapNeverEnds(net, depth, d);
      var c := Contrary(net, e, r);
      ContraryIsRewritten(net, e, r);
      NeverEnds(c, depth, s);
      forall level' ensures !Layered(net, level') {
        if Layered(net, level') {
          LayeredEnds(net, c.goals, c.results, depth, level', s);
        }
      }
    }
  }

  lemma ContraryIsRewritten(net: Net, d: set<Node>, r: Node)
    ensures var c := Contrary(net, d, r); c == Rewritten(net, c.goals, c.results)
  {
  }

  lemma NeverEnds(net: Net, depth: map<Node, nat>, s: State)
    requires net.Ok(depth) && Steady(net, s) && Noticed(net, s, {}) && forall k :: !Quiet(Steps(net, s, k))
    ensures !EndsFrom(net, depth, s)
  {
  }

  lemma LayeredEnds(net: Net, goals: (Node, set<Node>, map<Node, Value>) -> bool,
                    results: (Node, set<Node>, map<Node, Value>) -> Datum, depth: map<Node, nat>, level: map<Node, nat>, s: State)
    requires Layered(net, level)
    ensures EndsFrom(Rewritten(net, goals, results), depth, s)
  {
    hide Net.Ok, Layered, Steady, Noticed, Quiet, Steps;
    var c := Rewritten(net, goals, results);
    SameLayers(net, goals, results, level);
    if c.Ok(depth) && Steady(c, s) && Noticed(c, s, {}) {
      var k := EndsWhenLayered(c, depth, level, s);
    }
  }

  lemma SameLayers(net: Net, goals: (Node, set<Node>, map<Node, Value>) -> bool,
                   results: (Node, set<Node>, map<Node, Value>) -> Datum, level: map<Node, nat>)
    requires Layered(net, level)
    ensures Layered(Rewritten(net, goals, results), level)
  {
    var c := Rewritten(net, goals, results);
    assert forall x :: c.Referrers(x) == net.Referrers(x) && c.Implemented(x) == net.Implemented(x);
    assert forall u: Update, x :: c.Depends(u, x) == net.Depends(u, x);
    hide Net.Referrers, Net.Implemented, Net.Depends, Level;
  }

  /** Levels for all nodes, or a trap. */
  lemma Layers(net: Net, depth: map<Node, nat>) returns (level: map<Node, nat>, d: set<Node>)
    requires net.Ok(depth) && NoInterfaces(net)
    ensures Layered(net, level) || Trap(net, d)
  {
    hide View.Ok, Net.Local, Net.RefsOk, Trap, Level;
    level, d := LayersOrTrap(net, net.tree.nodes);
    forall u: Update, x | net.Depends(u, x) ensures u.node in net.tree.nodes && x in net.tree.nodes {
      RefersToNodes(net, depth, u, x);
    }
    hide Net.Depends;
  }

  lemma RefersToNodes(net: Net, depth: map<Node, nat>, u: Update, x: Node)
    requires net.Ok(depth) && net.Depends(u, x)
    ensures u.node in net.tree.nodes && x in net.tree.nodes
  {
    hide View.Ok, Net.Local, Net.RefsOk;
    IsRooted(net.tree, depth);
    RefersUp(net, u, x);
    Parents(net.tree, depth, u.node);
  }
}
