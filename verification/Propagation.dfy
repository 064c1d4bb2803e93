/** Values and active flags in a transaction (ecos/host/libcdl/transact.cxx, base.cxx, value.cxx,
    interface.cxx), as values: what set_active, set_whole_value and one round of propagate do.

    A node should be active if its parent is active and, where it has a value, enabled, and if its
    own active_if goals hold.  The value of a node may be the result of its default_value or
    calculated expression; the value of an interface is the number of active and enabled nodes
    that implement it.  Changes wait in two queues until propagation visits the nodes they may
    concern: the contents of a changed node and the nodes whose expressions refer to it. */
module Propagation {
  import opened ParentMap
  import opened HierarchyView
  import opened HierarchyLaws

  /** The data of a value: an integer, or a text that does not read as one. */
  datatype Datum = Number(n: int) | Text(text: string)

  /** A value, by flavor. */
  datatype Value = Flavorless | Bool(on: bool) | BoolData(on: bool, data: Datum) | Data(data: Datum)

  predicate Truth(d: Datum) {
    match d
    case Number(n) => n != 0
    case Text(t) => t != "" && t != "false" && t != "False" && t != "FALSE"
  }

  predicate Enabled(v: Value) {
    match v
    case Flavorless => true
    case Bool(on) => on
    case BoolData(on, _) => on
    case Data(_) => true
  }

  /** CdlValue::set */
  function Set(v: Value, d: Datum): Value {
    match v
    case Flavorless => v
    case Bool(_) => Bool(Truth(d))
    case BoolData(_, _) => if Truth(d) then BoolData(true, d) else BoolData(false, Number(0))
    case Data(_) => Data(d)
  }

  /** What may have to be done for a node: test its flag, or evaluate its expression again. */
  datatype Update = Test(node: Node) | Compute(node: Node)

  /** What does not change while changes are propagated: the hierarchy; for each node the updates
      that references to it call for; the nodes with a default_value or calculated property;
      whether the goals of a node hold and what its expression results in, given the active nodes
      and the values (a goal that cannot be evaluated counts as holding, an expression as 0);
      which interfaces a node implements. */
  datatype Net = Net(tree: View, referrers: map<Node, seq<Update>>, computed: set<Node>,
                     goals: (Node, set<Node>, map<Node, Value>) -> bool, results: (Node, set<Node>, map<Node, Value>) -> Datum,
                     implemented: map<Node, seq<Node>>, implementers: map<Node, seq<Node>>)
  {
    function Referrers(x: Node): seq<Update> { if x in referrers then referrers[x] else [] }

    function Implemented(n: Node): seq<Node> { if n in implemented then implemented[n] else [] }

    function Implementers(i: Node): seq<Node> { if i in implementers then implementers[i] else [] }

    function Interfaces(): set<Node> { implementers.Keys }

    /** What to do when x has changed, in order. */
    ghost function Dependents(x: Node): seq<Update> { Tests(tree.Kids(x)) + Referrers(x) }

    /** u may have to be done when x has changed. */
    ghost predicate Depends(u: Update, x: Node) {
      (u.Test? && u.node in tree.up && tree.up[u.node] == x) || u in Referrers(x)
    }

    /** Two states of affairs that agree on what the expression of u refers to. */
    ghost predicate SameFor(u: Update, a: set<Node>, v: map<Node, Value>, b: set<Node>, w: map<Node, Value>) {
      forall x :: u in Referrers(x) ==> (x in a <==> x in b) && (x in v <==> x in w) && (x in v ==> v[x] == w[x])
    }

    /** An expression looks at nothing but the nodes it refers to. */
    ghost predicate Local() {
      forall n: Node, a: set<Node>, v: map<Node, Value>, b: set<Node>, w: map<Node, Value> ::
        && (SameFor(Test(n), a, v, b, w) ==> goals(n, a, v) == goals(n, b, w))
        && (SameFor(Compute(n), a, v, b, w) ==> results(n, a, v) == results(n, b, w))
    }

    /** Propagation only visits nodes that are still loaded. */
    ghost predicate Loaded(n: Node) {
      n in tree.up && (tree.up[n] == tree.root || tree.up[n] in tree.attached)
    }

    /** References are between loaded nodes; implementing is seen the same way from both sides,
        and an interface has no expression of its own. */
    ghost predicate RefsOk() {
      && (forall x, u :: u in Referrers(x) ==> x in tree.attached)
      && (forall x, u :: u in Referrers(x) ==> Loaded(u.node) && (u.Compute? ==> u.node in computed))
      && (forall n, i :: i in Implemented(n) <==> n in Implementers(i))
      && (forall n, i :: i in Implemented(n) ==> i !in computed)
    }

    ghost predicate Ok(depth: map<Node, nat>) {
      tree.Ok(depth) && Local() && RefsOk()
    }
  }

  function Tests(s: seq<Node>): seq<Update> {
    seq(|s|, i requires 0 <= i < |s| => Test(s[i]))
  }

  lemma TestsOf(s: seq<Node>, u: Update)
    ensures u in Tests(s) <==> u.Test? && u.node in s
  {
    if u.Test? && u.node in s {
      var i :| 0 <= i < |s| && s[i] == u.node;
      assert Tests(s)[i] == u;
    }
  }

  lemma DependentsAre(net: Net, depth: map<Node, nat>, u: Update, x: Node)
    requires net.tree.Ok(depth) && x in net.tree.nodes
    ensures u in net.Dependents(x) <==> net.Depends(u, x)
  {
    hide View.Ok, View.Kids, Tests;
    TestsOf(net.tree.Kids(x), u);
    Child(net.tree, depth, x, u.node);
  }

  /** Flags, the values in force, which of them somebody has given instead of the default, and
      what waits. */
  datatype State = State(active: set<Node>, values: map<Node, Value>, given: set<Node>,
                         valueChanges: seq<Node>, activeChanges: seq<Node>)

  // ---------------------------------------------------------------- the operations

  /** test_active */
  ghost predicate Wanted(net: Net, s: State, n: Node) {
    && n in net.tree.up && net.tree.up[n] in s.active
    && (net.tree.up[n] in s.values ==> Enabled(s.values[net.tree.up[n]]))
    && (n in s.values ==> net.goals(n, s.active, s.values))
  }

  /** set_whole_value, apart from the interfaces the node implements. */
  function WithValue(s: State, n: Node, v: Value): State {
    if n in s.values && s.values[n] == v then s
    else s.(values := s.values[n := v], valueChanges := if n in s.valueChanges then s.valueChanges else s.valueChanges + [n])
  }

  /** How many of some nodes are active and enabled. */
  function Count(s: State, nodes: seq<Node>): nat {
    if nodes == [] then 0 else
    var n := nodes[|nodes| - 1];
    Count(s, nodes[..|nodes| - 1]) + if n in s.active && n in s.values && Enabled(s.values[n]) then 1 else 0
  }

  /** The value of an interface with c implementers. */
  function Counting(v: Value, c: nat): Value {
    match v
    case Flavorless => v
    case Bool(_) => Bool(c > 0)
    case BoolData(_, _) => BoolData(c > 0, Number(c))
    case Data(_) => Data(Number(c))
  }

  function IntegerOf(d: Datum): int {
    match d
    case Number(n) => n
    case Text(_) => 0
  }

  /** recalculate: a value with data is left alone when the data is the count already. */
  function Recount(v: Value, c: nat): Value {
    match v
    case Flavorless => v
    case Bool(_) => Counting(v, c)
    case BoolData(_, d) => if c == IntegerOf(d) then v else Counting(v, c)
    case Data(d) => if c == IntegerOf(d) then v else Counting(v, c)
  }

  /** Some interfaces recalculated one after the other, and whenever one of them has become
      enabled or disabled the interfaces it implements in turn; the default is not seen where a
      value has been given.  Only an open interface passes a change on, and it is not open any
      more for what it causes; Interfaces.RecalculatedCounts shows that no change is stopped. */
  function Recalculated(net: Net, s: State, interfaces: seq<Node>, open: set<Node>): State
    decreases open, |interfaces|
  {
    if interfaces == [] then s else
    var t := Recalculated(net, s, interfaces[..|interfaces| - 1], open);
    var i := interfaces[|interfaces| - 1];
    if i !in t.values || i in t.given then t else
    var v := Recount(t.values[i], Count(t, net.Implementers(i)));
    if Enabled(v) == Enabled(t.values[i]) || i !in open then WithValue(t, i, v)
    else Recalculated(net, WithValue(t, i, v), net.Implemented(i), open - {i})
  }

  function Flagged(s: State, n: Node, b: bool): State {
    s.(active := if b then s.active + {n} else s.active - {n}, activeChanges := s.activeChanges + [n])
  }

  /** set_active */
  function SetActive(net: Net, s: State, n: Node, b: bool): State {
    Recalculated(net, Flagged(s, n, b), net.Implemented(n), net.Interfaces())
  }

  /** set_whole_value */
  function SetValue(net: Net, s: State, n: Node, v: Value): State {
    SetWithin(net, s, n, v, net.Interfaces())
  }

  /** The same while some interfaces are open. */
  function SetWithin(net: Net, s: State, n: Node, v: Value, open: set<Node>): State {
    if n in s.values && Enabled(v) != Enabled(s.values[n])
    then Recalculated(net, WithValue(s, n, v), net.Implemented(n), open)
    else WithValue(s, n, v)
  }

  /** A value given by the user, a wizard or an inference. */
  function Give(net: Net, s: State, n: Node, v: Value): State {
    SetValue(net, s.(given := s.given + {n}), n, v)
  }

  /** The default value evaluated again. */
  function SetDefault(net: Net, s: State, n: Node, d: Datum): State {
    if n in s.values && n !in s.given then SetValue(net, s, n, Set(s.values[n], d)) else s
  }

  /** One node brought up to date. */
  ghost function Updated(net: Net, s: State, u: Update): State {
    match u
    case Test(n) => if (n in s.active) == Wanted(net, s, n) then s else SetActive(net, s, n, Wanted(net, s, n))
    case Compute(n) => SetDefault(net, s, n, net.results(n, s.active, s.values))
  }

  /** The first i of some updates, one after the other. */
  ghost function AllUpdated(net: Net, s: State, updates: seq<Update>, i: nat): State
    requires i <= |updates|
  {
    if i == 0 then s else Updated(net, AllUpdated(net, s, updates, i - 1), updates[i - 1])
  }

  /** The visit of a node taken from a queue; nothing happens if it is not loaded any more. */
  ghost function Visited(net: Net, s: State, x: Node): State {
    if x in net.tree.attached then AllUpdated(net, s, net.Dependents(x), |net.Dependents(x)|) else s
  }

  predicate Quiet(s: State) {
    s.valueChanges == [] && s.activeChanges == []
  }

  /** The state with the next node taken from its queue: values first, and each time the one at
      the front. */
  function Rest(s: State): State
    requires !Quiet(s)
  {
    if s.valueChanges != [] then s.(valueChanges := s.valueChanges[1..]) else s.(activeChanges := s.activeChanges[1..])
  }

  function Next(s: State): Node
    requires !Quiet(s)
  {
    if s.valueChanges != [] then s.valueChanges[0] else s.activeChanges[0]
  }

  /** One round of propagate. */
  ghost function Step(net: Net, s: State): State {
    if Quiet(s) then s else Visited(net, Rest(s), Next(s))
  }

  ghost function Steps(net: Net, s: State, k: nat): State {
    if k == 0 then s else Step(net, Steps(net, s, k - 1))
  }

  /** Values are taken before flags, and of each the one that has waited longest. */
  lemma StepFromFront(net: Net, s: State, x: Node, rest: seq<Node>)
    ensures s.valueChanges == [x] + rest ==> Step(net, s) == Visited(net, s.(valueChanges := rest), x)
    ensures s.valueChanges == [] && s.activeChanges == [x] + rest ==> Step(net, s) == Visited(net, s.(activeChanges := rest), x)
    ensures s.valueChanges == [] && s.activeChanges == [] ==> Step(net, s) == s
  {
    hide Visited;
    assert ([x] + rest)[1..] == rest;
  }

  // ---------------------------------------------------------------- what changes

  function Waiting(s: State): seq<Node> { s.valueChanges + s.activeChanges }

  ghost predicate SameAt(s: State, t: State, x: Node) {
    (x in s.active <==> x in t.active) && (x in s.values <==> x in t.values) && (x in s.values ==> s.values[x] == t.values[x])
  }

  /** Nothing is forgotten, and what has changed waits. */
  ghost predicate Announces(s: State, t: State) {
    && t.values.Keys == s.values.Keys && s.given <= t.given
    && (forall x :: x in Waiting(s) ==> x in Waiting(t))
    && (forall x :: !SameAt(s, t, x) ==> x in Waiting(t))
  }

  /** Only interfaces change, and only in value. */
  ghost predicate InterfacesOnly(net: Net, s: State, t: State) {
    && t.active == s.active && t.given == s.given && t.activeChanges == s.activeChanges && t.values.Keys == s.values.Keys
    && (forall x :: x in s.values && net.Implementers(x) == [] ==> t.values[x] == s.values[x])
    && (forall x :: x in t.valueChanges ==> x in s.valueChanges || x in s.values)
  }

  lemma AnnouncesTransitive(s: State, t: State, u: State)
    requires Announces(s, t) && Announces(t, u)
    ensures Announces(s, u)
  {
    forall x | !SameAt(s, u, x) ensures x in Waiting(u) {
      assert !SameAt(s, t, x) || !SameAt(t, u, x);
    }
  }

  lemma InterfacesTransitive(net: Net, s: State, t: State, u: State)
    requires InterfacesOnly(net, s, t) && InterfacesOnly(net, t, u)
    ensures InterfacesOnly(net, s, u)
  {
  }

  lemma NothingChanged(net: Net, s: State)
    ensures Announces(s, s) && InterfacesOnly(net, s, s)
  {
  }

  lemma WithValueAnnounces(s: State, n: Node, v: Value)
    requires n in s.values
    ensures Announces(s, WithValue(s, n, v))
  {
    var t := WithValue(s, n, v);
    assert t.values.Keys == s.values.Keys;
  }

  lemma WithValueInterfaces(net: Net, s: State, i: Node, v: Value)
    requires i in s.values && net.Implementers(i) != []
    ensures InterfacesOnly(net, s, WithValue(s, i, v))
  {
    var t := WithValue(s, i, v);
    assert t.values.Keys == s.values.Keys;
  }

  ghost predicate AllInterfaces(net: Net, nodes: seq<Node>) {
    forall i :: i in nodes ==> net.Implementers(i) != []
  }

  lemma ImplementedAreInterfaces(net: Net, n: Node)
    requires net.RefsOk()
    ensures AllInterfaces(net, net.Implemented(n))
  {
  }

  lemma {:induction false} RecalculatedAnnounces(net: Net, s: State, interfaces: seq<Node>, open: set<Node>)
    requires net.RefsOk() && AllInterfaces(net, interfaces)
    ensures Announces(s, Recalculated(net, s, interfaces, open)) && InterfacesOnly(net, s, Recalculated(net, s, interfaces, open))
    decreases open, |interfaces|
  {
    hide Recount, Count, Announces, InterfacesOnly, WithValue, Enabled, Net.RefsOk, Net.Implemented, Net.Implementers;
    if interfaces == [] {
      NothingChanged(net, s);
    } else {
      var t, i := Recalculated(net, s, interfaces[..|interfaces| - 1], open), interfaces[|interfaces| - 1];
      RecalculatedAnnounces(net, s, interfaces[..|interfaces| - 1], open);
      if i in t.values && i !in t.given {
        var v := Recount(t.values[i], Count(t, net.Implementers(i)));
        var u := WithValue(t, i, v);
        WithValueAnnounces(t, i, v);
        WithValueInterfaces(net, t, i, v);
        AnnouncesTransitive(s, t, u);
        InterfacesTransitive(net, s, t, u);
        if Enabled(v) != Enabled(t.values[i]) && i in open {
          ImplementedAreInterfaces(net, i);
          RecalculatedAnnounces(net, u, net.Implemented(i), open - {i});
          AnnouncesTransitive(s, u, Recalculated(net, s, interfaces, open));
          InterfacesTransitive(net, s, u, Recalculated(net, s, interfaces, open));
        }
      }
    }
  }

  /** Values that have been given are left alone, and what waits goes on waiting in the same order. */
  lemma {:induction false} RecalculatedKeepsGiven(net: Net, s: State, interfaces: seq<Node>, open: set<Node>, n: Node)
    requires n in s.given && n in s.values
    ensures var t := Recalculated(net, s, interfaces, open);
      t.given == s.given && n in t.values && t.values[n] == s.values[n] && s.valueChanges <= t.valueChanges
    decreases open, |interfaces|
  {
    hide Recount, Count, Enabled, Net.Implemented, Net.Implementers;
    if interfaces != [] {
      var t, i := Recalculated(net, s, interfaces[..|interfaces| - 1], open), interfaces[|interfaces| - 1];
      RecalculatedKeepsGiven(net, s, interfaces[..|interfaces| - 1], open, n);
      if i in t.values && i !in t.given {
        var v := Recount(t.values[i], Count(t, net.Implementers(i)));
        if Enabled(v) != Enabled(t.values[i]) && i in open {
          RecalculatedKeepsGiven(net, WithValue(t, i, v), net.Implemented(i), open - {i}, n);
        }
      }
    }
  }

  lemma FlaggedAnnounces(s: State, n: Node, b: bool)
    ensures Announces(s, Flagged(s, n, b))
  {
  }

  lemma SetActiveAnnounces(net: Net, s: State, n: Node, b: bool)
    requires net.RefsOk()
    ensures Announces(s, SetActive(net, s, n, b)) && InterfacesOnly(net, Flagged(s, n, b), SetActive(net, s, n, b))
  {
    hide Announces, InterfacesOnly, Flagged, Recalculated, Net.RefsOk;
    FlaggedAnnounces(s, n, b);
    ImplementedAreInterfaces(net, n);
    RecalculatedAnnounces(net, Flagged(s, n, b), net.Implemented(n), net.Interfaces());
    AnnouncesTransitive(s, Flagged(s, n, b), SetActive(net, s, n, b));
  }

  lemma SetValueAnnounces(net: Net, s: State, n: Node, v: Value)
    requires net.RefsOk() && n in s.values
    ensures Announces(s, SetValue(net, s, n, v)) && InterfacesOnly(net, WithValue(s, n, v), SetValue(net, s, n, v))
  {
    hide Announces, InterfacesOnly, WithValue, Recalculated, Net.RefsOk;
    WithValueAnnounces(s, n, v);
    NothingChanged(net, WithValue(s, n, v));
    ImplementedAreInterfaces(net, n);
    RecalculatedAnnounces(net, WithValue(s, n, v), net.Implemented(n), net.Interfaces());
    AnnouncesTransitive(s, WithValue(s, n, v), Recalculated(net, WithValue(s, n, v), net.Implemented(n), net.Interfaces()));
  }

  // ---------------------------------------------------------------- nothing goes unnoticed

  ghost predicate Relevant(net: Net, u: Update) {
    match u
    case Test(n) => net.Loaded(n)
    case Compute(n) => n in net.computed
  }

  /** The node of u is in t as s asks for. */
  ghost predicate Done(net: Net, s: State, t: State, u: Update) {
    match u
    case Test(n) => n in t.active <==> Wanted(net, s, n)
    case Compute(n) => n in t.values && n !in t.given ==> t.values[n] == Set(t.values[n], net.results(n, s.active, s.values))
  }

  ghost predicate Right(net: Net, s: State, u: Update) {
    Done(net, s, s, u)
  }

  /** u looks at something that waits to be visited. */
  ghost predicate Excused(net: Net, s: State, u: Update) {
    exists x :: x in Waiting(s) && net.Depends(u, x)
  }

  /** Whatever is relevant, the exceptions aside, is right, or looks at something that waits. */
  ghost predicate Noticed(net: Net, s: State, except: set<Update>) {
    forall u :: Relevant(net, u) && u !in except ==> Right(net, s, u) || Excused(net, s, u)
  }

  lemma DoneLocal(net: Net, s: State, t: State, r: State, u: Update)
    requires net.Local() && s.values.Keys == t.values.Keys
    requires forall x :: net.Depends(u, x) ==> SameAt(s, t, x)
    ensures Done(net, s, r, u) <==> Done(net, t, r, u)
  {
    assert net.SameFor(u, s.active, s.values, t.active, t.values) by {
      assert forall x :: u in net.Referrers(x) ==> net.Depends(u, x);
    }
    match u {
      case Test(n) =>
        assert net.goals(n, s.active, s.values) == net.goals(n, t.active, t.values);
        assert n in net.tree.up ==> net.Depends(u, net.tree.up[n]);
      case Compute(n) =>
        assert net.results(n, s.active, s.values) == net.results(n, t.active, t.values);
    }
  }

  /** A change that is announced leaves what an update asks for as it was, or excuses it. */
  lemma StaysNoticed(net: Net, s: State, t: State, u: Update)
    requires net.Local() && Announces(s, t)
    ensures Excused(net, s, u) ==> Excused(net, t, u)
    ensures Done(net, s, t, u) ==> Right(net, t, u) || Excused(net, t, u)
  {
    if Done(net, s, t, u) && !Excused(net, t, u) {
      hide Net.Local, Done, Net.Depends;
      DoneLocal(net, s, t, t, u);
    }
  }

  /** The node of u keeps what u is about. */
  ghost predicate Untouched(s: State, t: State, u: Update) {
    match u
    case Test(n) => n in s.active <==> n in t.active
    case Compute(n) => n in t.values && n !in t.given ==> n in s.values && n !in s.given && s.values[n] == t.values[n]
  }

  /** If the exceptions of t cover what has been touched and not done, nothing goes unnoticed. */
  lemma AnnouncedKeeps(net: Net, s: State, t: State, except: set<Update>, except': set<Update>)
    requires net.Local() && Announces(s, t) && Noticed(net, s, except)
    requires forall u :: Relevant(net, u) && u !in except' ==> (u !in except && Untouched(s, t, u)) || Done(net, s, t, u)
    ensures Noticed(net, t, except')
  {
    hide Net.Local, Announces, Wanted, Excused, Relevant;
    forall u | Relevant(net, u) && u !in except' ensures Right(net, t, u) || Excused(net, t, u) {
      StaysNoticed(net, s, t, u);
    }
  }

  lemma FewerExceptions(net: Net, s: State, except: set<Update>, except': set<Update>)
    requires Noticed(net, s, except) && except <= except'
    ensures Noticed(net, s, except')
  {
    hide Relevant, Right, Excused;
  }

  /** Interfaces have no expressions, so recalculating them touches nothing an update is about. */
  lemma InterfacesUntouched(net: Net, s: State, t: State, u: Update)
    requires net.RefsOk() && InterfacesOnly(net, s, t) && Relevant(net, u)
    ensures Untouched(s, t, u)
  {
    InterfaceHasNoExpression(net, u.node);
  }

  lemma InterfaceHasNoExpression(net: Net, i: Node)
    requires net.RefsOk()
    ensures net.Implementers(i) != [] ==> i !in net.computed
  {
    if net.Implementers(i) != [] {
      assert i in net.Implemented(net.Implementers(i)[0]);
    }
  }

  /** Setting the flag a test asks for. */
  lemma SetActiveKeeps(net: Net, s: State, n: Node, except: set<Update>)
    requires net.Local() && net.RefsOk() && Noticed(net, s, except)
    ensures Noticed(net, SetActive(net, s, n, Wanted(net, s, n)), except - {Test(n)})
  {
    hide Net.Local, Net.RefsOk, Announces, Wanted, Noticed, SetActive, Relevant, Set;
    var f, t := Flagged(s, n, Wanted(net, s, n)), SetActive(net, s, n, Wanted(net, s, n));
    SetActiveAnnounces(net, s, n, Wanted(net, s, n));
    forall u | Relevant(net, u) && u !in except - {Test(n)}
      ensures (u !in except && Untouched(s, t, u)) || Done(net, s, t, u)
    {
      InterfacesUntouched(net, f, t, u);
    }
    AnnouncedKeeps(net, s, t, except, except - {Test(n)});
  }

  /** A new value that is the one asked for, or a given one. */
  lemma SetValueKeeps(net: Net, s: State, n: Node, v: Value, except: set<Update>)
    requires net.Local() && net.RefsOk() && Noticed(net, s, except) && n in s.values
    requires n in s.given || v == Set(v, net.results(n, s.active, s.values))
    ensures Noticed(net, SetValue(net, s, n, v), except - {Compute(n)})
  {
    hide Net.Local, Net.RefsOk, Announces, Wanted, Noticed, SetValue, Relevant, Set;
    var w, t := WithValue(s, n, v), SetValue(net, s, n, v);
    SetValueAnnounces(net, s, n, v);
    forall u | Relevant(net, u) && u !in except - {Compute(n)}
      ensures (u !in except && Untouched(s, t, u)) || Done(net, s, t, u)
    {
      InterfacesUntouched(net, w, t, u);
    }
    AnnouncedKeeps(net, s, t, except, except - {Compute(n)});
  }

  /** The default evaluated again. */
  lemma SetDefaultKeeps(net: Net, s: State, n: Node, except: set<Update>)
    requires net.Local() && net.RefsOk() && Noticed(net, s, except)
    ensures Noticed(net, SetDefault(net, s, n, net.results(n, s.active, s.values)), except - {Compute(n)})
  {
    hide Net.Local, Net.RefsOk, Noticed, SetValue;
    var d := net.results(n, s.active, s.values);
    if n in s.values && n !in s.given {
      SetValueKeeps(net, s, n, Set(s.values[n], d), except);
    } else {
      NothingChanged(net, s);
      AnnouncedKeeps(net, s, s, except, except - {Compute(n)});
    }
  }

  /** Doing an update strikes it off the exceptions. */
  lemma UpdatedKeeps(net: Net, s: State, u: Update, except: set<Update>)
    requires net.Local() && net.RefsOk() && Noticed(net, s, except)
    ensures Noticed(net, Updated(net, s, u), except - {u})
  {
    hide Net.Local, Net.RefsOk, Announces, Wanted, Noticed, SetActive, SetDefault;
    match u {
      case Test(n) =>
        if (n in s.active) == Wanted(net, s, n) {
          NothingChanged(net, s);
          AnnouncedKeeps(net, s, s, except, except - {u});
        } else {
          SetActiveKeeps(net, s, n, except);
        }
      case Compute(n) =>
        SetDefaultKeeps(net, s, n, except);
    }
  }

  /** The hierarchy after n has been re-parented, with the references as they were. */
  ghost function Reparented(net: Net, n: Node, p: Node, pos: int): (r: Net)
    ensures r.referrers == net.referrers && r.computed == net.computed && r.goals == net.goals && r.results == net.results
    ensures r.implemented == net.implemented && r.implementers == net.implementers
    ensures r.tree.up == net.tree.up[n := p] && r.tree.attached == net.tree.attached && r.tree.root == net.tree.root
  {
    net.(tree := net.tree.Move(n, p, pos))
  }

  lemma ReparentedRefs(net: Net, n: Node, p: Node, pos: int)
    requires net.Local() && net.RefsOk() && (p == net.tree.root || p in net.tree.attached)
    ensures Reparented(net, n, p, pos).Local() && Reparented(net, n, p, pos).RefsOk()
  {
    hide Reparented;
    var r := Reparented(net, n, p, pos);
    assert forall x :: r.Referrers(x) == net.Referrers(x) && r.Implemented(x) == net.Implemented(x);
    assert forall x :: r.Implementers(x) == net.Implementers(x);
    assert forall m :: net.Loaded(m) ==> r.Loaded(m);
    ReparentedLocal(net, n, p, pos);
    hide Net.Referrers, Net.Implemented, Net.Implementers, Net.Loaded, Net.Local;
  }

  lemma ReparentedLocal(net: Net, n: Node, p: Node, pos: int)
    requires net.Local()
    ensures Reparented(net, n, p, pos).Local()
  {
    hide Reparented;
    var r := Reparented(net, n, p, pos);
    forall u: Update, a: set<Node>, v: map<Node, Value>, b: set<Node>, w: map<Node, Value>
      ensures r.SameFor(u, a, v, b, w) == net.SameFor(u, a, v, b, w)
    {
      assert forall x :: r.Referrers(x) == net.Referrers(x);
    }
    hide Net.SameFor;
  }

  /** change_parent alone: nothing but the flag of the node itself can have become wrong. */
  lemma ReparentedKeeps(net: Net, s: State, n: Node, p: Node, pos: int, except: set<Update>)
    requires Noticed(net, s, except)
    ensures Noticed(Reparented(net, n, p, pos), s, except + {Test(n)})
  {
    hide Reparented;
    var r := Reparented(net, n, p, pos);
    forall u | Relevant(r, u) && u !in except + {Test(n)} ensures Right(r, s, u) || Excused(r, s, u) {
      assert Relevant(net, u);
      assert Right(r, s, u) == Right(net, s, u);
      assert forall x :: r.Depends(u, x) == net.Depends(u, x) by {
        assert forall x :: r.Referrers(x) == net.Referrers(x);
      }
      hide Net.Depends, Right, Relevant;
    }
  }

  /** The test after change_parent makes up for it. */
  lemma ReparentedAndTested(net: Net, s: State, n: Node, p: Node, pos: int)
    requires net.Local() && net.RefsOk() && (p == net.tree.root || p in net.tree.attached) && Noticed(net, s, {})
    ensures var r := Reparented(net, n, p, pos);
      r.Local() && r.RefsOk() && Noticed(r, Updated(r, s, Test(n)), {})
  {
    hide Net.Local, Net.RefsOk, Noticed, Updated, Reparented;
    var r := Reparented(net, n, p, pos);
    ReparentedRefs(net, n, p, pos);
    ReparentedKeeps(net, s, n, p, pos, {});
    UpdatedKeeps(r, s, Test(n), {} + {Test(n)});
    assert {} + {Test(n)} - {Test(n)} == {};
  }

  /** A value given by somebody. */
  lemma GiveKeeps(net: Net, s: State, n: Node, v: Value, except: set<Update>)
    requires net.Local() && net.RefsOk() && Noticed(net, s, except) && n in s.values
    ensures Noticed(net, Give(net, s, n, v), except)
  {
    hide Net.Local, Net.RefsOk, Noticed, SetValue, Wanted;
    var g := s.(given := s.given + {n});
    AnnouncedKeeps(net, s, g, except, except);
    SetValueKeeps(net, g, n, v, except);
    FewerExceptions(net, SetValue(net, g, n, v), except - {Compute(n)}, except);
  }

  function ToSet<T>(s: seq<T>): set<T> {
    set n | n in s
  }

  lemma {:induction false} AllUpdatedKeeps(net: Net, s: State, updates: seq<Update>, i: nat)
    requires net.Local() && net.RefsOk() && Noticed(net, s, ToSet(updates)) && i <= |updates|
    ensures Noticed(net, AllUpdated(net, s, updates, i), ToSet(updates[i..]))
  {
    hide Net.Local, Net.RefsOk, Updated, Noticed;
    if i > 0 {
      AllUpdatedKeeps(net, s, updates, i - 1);
      var t := AllUpdated(net, s, updates, i - 1);
      UpdatedKeeps(net, t, updates[i - 1], ToSet(updates[i - 1..]));
      assert updates[i - 1..] == [updates[i - 1]] + updates[i..];
      FewerExceptions(net, Updated(net, t, updates[i - 1]), ToSet(updates[i - 1..]) - {updates[i - 1]}, ToSet(updates[i..]));
    } else {
      assert updates[0..] == updates;
    }
  }

  /** The root of the hierarchy is active, has no value and never changes. */
  ghost predicate Steady(net: Net, s: State) {
    && net.tree.root in s.active && net.tree.root !in s.values && s.values.Keys <= net.tree.nodes
    && (forall x :: x in Waiting(s) ==> x in net.tree.nodes && x != net.tree.root)
  }

  lemma WaitingSplit(s: State, y: Node)
    requires !Quiet(s)
    ensures y in Waiting(s) <==> y == Next(s) || y in Waiting(Rest(s))
  {
    if s.valueChanges != [] {
      assert s.valueChanges == [s.valueChanges[0]] + s.valueChanges[1..];
    } else {
      assert s.activeChanges == [s.activeChanges[0]] + s.activeChanges[1..];
    }
  }

  /** Taking a node from its queue leaves what depends on it to be done. */
  lemma RestKeeps(net: Net, depth: map<Node, nat>, s: State, u: Update)
    requires net.tree.Ok(depth) && net.RefsOk() && Steady(net, s) && !Quiet(s) && Relevant(net, u)
    requires Right(net, s, u) || Excused(net, s, u)
    ensures Right(net, Rest(s), u) || Excused(net, Rest(s), u) || (Next(s) in net.tree.attached && u in net.Dependents(Next(s)))
  {
    hide View.Ok, Net.Dependents;
    if Right(net, s, u) {
      hide Net.RefsOk, Steady;
      assert Right(net, Rest(s), u);
    } else {
      var x :| x in Waiting(s) && net.Depends(u, x);
      WaitingSplit(s, x);
      if x == Next(s) {
        DependentsAre(net, depth, u, x);
      }
    }
  }

  lemma VisitKeeps(net: Net, depth: map<Node, nat>, s: State)
    requires net.Ok(depth) && Steady(net, s) && Noticed(net, s, {}) && !Quiet(s)
    ensures Noticed(net, Visited(net, Rest(s), Next(s)), {})
  {
    hide View.Ok, Net.Local, Net.RefsOk, Net.Dependents, Right, Excused, Relevant, AllUpdated, Steady, Rest, Next;
    var x, r := Next(s), Rest(s);
    forall u | Relevant(net, u)
      ensures Right(net, r, u) || Excused(net, r, u) || (x in net.tree.attached && u in net.Dependents(x))
    {
      RestKeeps(net, depth, s, u);
    }
    if x in net.tree.attached {
      var d := net.Dependents(x);
      AllUpdatedKeeps(net, r, d, |d|);
      assert ToSet(d[|d|..]) == {};
    }
  }

  // ---------------------------------------------------------------- the states of a run

  lemma SteadyAfter(net: Net, s: State, t: State)
    requires Steady(net, s) && t.values.Keys == s.values.Keys && net.tree.root in t.active
    requires forall x :: x in Waiting(t) ==> x in Waiting(s) || x in s.values || x in net.tree.up
    requires net.tree.KindsOk() && net.tree.up.Keys <= net.tree.nodes
    ensures Steady(net, t)
  {
  }

  lemma UpdatedSteady(net: Net, s: State, u: Update)
    requires net.RefsOk() && Steady(net, s) && net.tree.KindsOk() && net.tree.up.Keys <= net.tree.nodes
    requires u.Test? ==> u.node in net.tree.up
    ensures Steady(net, Updated(net, s, u))
  {
    hide Net.RefsOk, Steady, Wanted, Recalculated, Enabled, Announces, Set;
    var n := u.node;
    if u.Test? && (n in s.active) != Wanted(net, s, n) {
      SetActiveAnnounces(net, s, n, Wanted(net, s, n));
      hide SetActive;
      assert n != net.tree.root;
      RootActive(net, s);
      SteadyAfter(net, s, SetActive(net, s, n, Wanted(net, s, n)));
    } else if u.Compute? && n in s.values && n !in s.given {
      var v := Set(s.values[n], net.results(n, s.active, s.values));
      SetValueAnnounces(net, s, n, v);
      hide SetValue;
      RootActive(net, s);
      SteadyAfter(net, s, SetValue(net, s, n, v));
    }
  }

  lemma RootActive(net: Net, s: State)
    requires Steady(net, s)
    ensures net.tree.root in s.active
  {
  }

  lemma {:induction false} AllUpdatedSteady(net: Net, s: State, updates: seq<Update>, i: nat)
    requires net.RefsOk() && Steady(net, s) && net.tree.KindsOk() && net.tree.up.Keys <= net.tree.nodes && i <= |updates|
    requires forall u :: u in updates && u.Test? ==> u.node in net.tree.up
    ensures Steady(net, AllUpdated(net, s, updates, i))
  {
    hide Net.RefsOk, Steady, Updated, View.KindsOk;
    if i > 0 {
      AllUpdatedSteady(net, s, updates, i - 1);
      UpdatedSteady(net, AllUpdated(net, s, updates, i - 1), updates[i - 1]);
    }
  }

  lemma VisitSteady(net: Net, depth: map<Node, nat>, s: State)
    requires net.Ok(depth) && Steady(net, s) && !Quiet(s)
    ensures Steady(net, Rest(s)) && Steady(net, Visited(net, Rest(s), Next(s)))
  {
    hide View.Ok, Net.Local, Net.RefsOk, Net.Dependents, AllUpdated, View.KindsOk;
    var x, r := Next(s), Rest(s);
    forall y ensures y in Waiting(r) ==> y in Waiting(s) {
      WaitingSplit(s, y);
    }
    WaitingSplit(s, x);
    if x in net.tree.attached {
      var d := net.Dependents(x);
      forall u ensures u in d && u.Test? ==> u.node in net.tree.up {
        DependentsAre(net, depth, u, x);
        TestsUp(net, u, x);
      }
      TreeFacts(net.tree, depth);
      hide Steady;
      AllUpdatedSteady(net, r, d, |d|);
    }
  }

  lemma TestsUp(net: Net, u: Update, x: Node)
    requires net.RefsOk()
    ensures net.Depends(u, x) && u.Test? ==> u.node in net.tree.up
  {
  }

  lemma TreeFacts(v: View, depth: map<Node, nat>)
    requires v.Ok(depth)
    ensures v.KindsOk() && v.up.Keys <= v.nodes
  {
  }

  /** Every state of a run: each step leaves nothing unnoticed. */
  lemma {:induction false} RunKeeps(net: Net, depth: map<Node, nat>, s: State, k: nat)
    requires net.Ok(depth) && Steady(net, s) && Noticed(net, s, {})
    ensures Steady(net, Steps(net, s, k)) && Noticed(net, Steps(net, s, k), {})
  {
    hide Net.Ok, Steady, Noticed, Visited, Rest, Next, Quiet;
    if k > 0 {
      RunKeeps(net, depth, s, k - 1);
      var t := Steps(net, s, k - 1);
      if !Quiet(t) {
        VisitSteady(net, depth, t);
        VisitKeeps(net, depth, t);
      }
    }
  }

  // ---------------------------------------------------------------- the result

  ghost predicate Met(net: Net, s: State, n: Node) {
    n in s.values ==> net.goals(n, s.active, s.values)
  }

  /** What there is above n as far as n is concerned: with a value that can be off, it is on. */
  ghost predicate Open(s: State, n: Node) {
    n in s.values ==> (s.values[n].Bool? || s.values[n].BoolData? ==> s.values[n].on)
  }

  /** Everything above n is enabled and has its goals met. */
  ghost predicate AllOpenAbove(net: Net, s: State, n: Node) {
    forall a :: Below(net.tree.up, n, a) ==> Open(s, a) && (a != net.tree.root ==> Met(net, s, a))
  }

  /** Nothing is left to do. */
  ghost predicate Solved(net: Net, s: State) {
    forall u :: Relevant(net, u) ==> Right(net, s, u)
  }

  lemma QuietIsSolved(net: Net, s: State)
    requires Quiet(s) && Noticed(net, s, {})
    ensures Solved(net, s)
  {
    hide Relevant, Right;
  }

  /** Once nothing waits, the flags are determined: a loaded node is active exactly if its own
      goals hold, and everything above it that has a value is enabled and has its goals met. */
  lemma {:induction false} SolvedMeansExact(net: Net, depth: map<Node, nat>, s: State, n: Node)
    requires net.tree.Ok(depth) && Settled(net.tree) && net.tree.root in s.active && net.tree.root !in s.values
    requires Solved(net, s) && n in net.tree.attached
    ensures n in s.active <==> Met(net, s, n) && AllOpenAbove(net, s, n)
    decreases depth[n]
  {
    hide View.Ok, Below, Settled, Met, Open;
    var up := net.tree.up;
    InNodes(net.tree, depth, n);
    Parents(net.tree, depth, n);
    var p := up[n];
    forall a ensures Below(up, n, a) <==> p == a || Below(up, p, a) {
      BelowStep(up, n, a);
    }
    AttachedIsBelowRoot(net.tree, depth, n);
    if p == net.tree.root {
      forall a ensures !Below(up, p, a) {
        BelowStep(up, p, a);
      }
    } else {
      BelowStep(up, n, net.tree.root);
      AttachedIsBelowRoot(net.tree, depth, p);
      SolvedMeansExact(net, depth, s, p);
    }
    FlagFromParent(net, s, n);
  }

  lemma FlagFromParent(net: Net, s: State, n: Node)
    requires Solved(net, s) && net.Loaded(n)
    ensures n in s.active <==> net.tree.up[n] in s.active && Open(s, net.tree.up[n]) && Met(net, s, n)
    ensures net.tree.root !in s.values ==> Open(s, net.tree.root)
  {
    assert Right(net, s, Test(n));
  }

  /** The enabled part of what an expression results in, and the data. */
  lemma SetByFlavor(v: Value, r: Datum)
    ensures Set(v, r).Data? <==> v.Data?
    ensures Set(v, r).Bool? <==> v.Bool?
    ensures Set(v, r).BoolData? <==> v.BoolData?
    ensures v.Data? ==> Set(v, r).data == r
    ensures v.Bool? || v.BoolData? ==>
      (Set(v, r).on <==> (r.Number? && r.n != 0) || (r.Text? && r.text !in ["", "false", "False", "FALSE"]))
    ensures v.BoolData? ==> Set(v, r).data == if Set(v, r).on then r else Number(0)
  {
  }

  /** Once nothing is left to do, an option with data has the result of its expression; one that can
      be on or off is on exactly if the result is a number other than 0, or a text other than "" and
      the spellings of false; and its data, if it has any, is the result or 0. */
  lemma DefaultsAreResults(net: Net, s: State)
    requires Solved(net, s)
    ensures forall n :: n in net.computed && n in s.values && n !in s.given && s.values[n].Data? ==>
      s.values[n].data == net.results(n, s.active, s.values)
    ensures forall n :: n in net.computed && n in s.values && n !in s.given && (s.values[n].Bool? || s.values[n].BoolData?) ==>
      var r := net.results(n, s.active, s.values);
      s.values[n].on <==> (r.Number? && r.n != 0) || (r.Text? && r.text !in ["", "false", "False", "FALSE"])
    ensures forall n :: n in net.computed && n in s.values && n !in s.given && s.values[n].BoolData? ==>
      s.values[n].data == if s.values[n].on then net.results(n, s.active, s.values) else Number(0)
  {
    hide Set;
    forall n | n in net.computed && n in s.values && n !in s.given
      ensures s.values[n] == Set(s.values[n], net.results(n, s.active, s.values))
    {
      assert Right(net, s, Compute(n));
    }
    forall n | n in s.values
      ensures var v, r := s.values[n], net.results(n, s.active, s.values);
        && (v.Data? ==> Set(v, r).Data? && Set(v, r).data == r)
        && (v.Bool? ==> Set(v, r).Bool?) && (v.BoolData? ==> Set(v, r).BoolData?)
        && (v.Bool? || v.BoolData? ==>
              (Set(v, r).on <==> (r.Number? && r.n != 0) || (r.Text? && r.text !in ["", "false", "False", "FALSE"])))
        && (v.BoolData? ==> Set(v, r).data == if Set(v, r).on then r else Number(0))
    {
      SetByFlavor(s.values[n], net.results(n, s.active, s.values));
    }
  }

  /** Once the queues are empty, what propagation was for is reached: every flag is the one the
      hierarchy and the goals ask for, every default is the result of its expression. */
  lemma QuietMeansExact(net: Net, depth: map<Node, nat>, s: State)
    requires net.Ok(depth) && Settled(net.tree) && Steady(net, s) && Noticed(net, s, {}) && Quiet(s)
    ensures forall n :: n in net.tree.attached ==> (n in s.active <==> Met(net, s, n) && AllOpenAbove(net, s, n))
    ensures forall n :: n in net.computed && n in s.values && n !in s.given && s.values[n].Data? ==>
      s.values[n].data == net.results(n, s.active, s.values)
    ensures forall n :: n in net.computed && n in s.values && n !in s.given && (s.values[n].Bool? || s.values[n].BoolData?) ==>
      var r := net.results(n, s.active, s.values);
      s.values[n].on <==> (r.Number? && r.n != 0) || (r.Text? && r.text !in ["", "false", "False", "FALSE"])
    ensures forall n :: n in net.computed && n in s.values && n !in s.given && s.values[n].BoolData? ==>
      s.values[n].data == if s.values[n].on then net.results(n, s.active, s.values) else Number(0)
  {
    hide *;
    QuietIsSolved(net, s);
    DefaultsAreResults(net, s);
    forall n | n in net.tree.attached ensures n in s.active <==> Met(net, s, n) && AllOpenAbove(net, s, n) {
      NetParts(net, depth, s);
      SolvedMeansExact(net, depth, s, n);
    }
  }

  lemma NetParts(net: Net, depth: map<Node, nat>, s: State)
    requires net.Ok(depth) && Steady(net, s)
    ensures net.tree.Ok(depth) && net.tree.root in s.active && net.tree.root !in s.values
  {
    hide View.Ok, Net.Local, Net.RefsOk;
  }
}
