/** The values of interfaces (ecos/host/libcdl/interface.cxx): the number of active and enabled
    nodes that implement them, in every state of a transaction. */
module Interfaces {
  import opened HierarchyView
  import opened Propagation

  ghost predicate Counts(s: State, n: Node) {
    n in s.active && n in s.values && Enabled(s.values[n])
  }

  lemma {:induction false} CountLocal(s: State, t: State, nodes: seq<Node>)
    requires forall n :: n in nodes ==> Counts(s, n) == Counts(t, n)
    ensures Count(s, nodes) == Count(t, nodes)
  {
    hide Enabled;
    if nodes != [] {
      CountLocal(s, t, nodes[..|nodes| - 1]);
      assert nodes[|nodes| - 1] in nodes;
      assert Counts(s, nodes[|nodes| - 1]) == Counts(t, nodes[|nodes| - 1]);
    }
  }

  /** The places in a list of nodes where there is one that is active, has a value, and is enabled if
      it can be off. */
  ghost function Implementing(s: State, nodes: seq<Node>): set<nat> {
    set j: nat | j < |nodes| && nodes[j] in s.active && nodes[j] in s.values && Open(s, nodes[j])
  }

  /** What is counted is how many such places there are. */
  lemma {:induction false} CountIsCardinality(s: State, nodes: seq<Node>)
    ensures Count(s, nodes) == |Implementing(s, nodes)|
  {
    if nodes == [] {
      assert Implementing(s, nodes) == {};
    } else {
      var k := |nodes| - 1;
      CountIsCardinality(s, nodes[..k]);
      var n := nodes[k];
      EnabledIsOpen(s, n);
      var here: set<nat> := if n in s.active && n in s.values && Open(s, n) then {k} else {};
      assert Implementing(s, nodes) == Implementing(s, nodes[..k]) + here by {
        hide Open;
        assert forall j :: 0 <= j < k ==> nodes[..k][j] == nodes[j];
      }
      assert k !in Implementing(s, nodes[..k]);
    }
  }

  lemma EnabledIsOpen(s: State, n: Node)
    ensures n in s.values ==> (Enabled(s.values[n]) <==> Open(s, n))
  {
  }

  /** Interfaces that are counted, by flavor: on if anything implements them, with the number of what
      does for data. */
  lemma CountedByFlavor(net: Net, s: State, i: Node)
    requires Counted(net, s, {}) && net.Implementers(i) != [] && i in s.values && i !in s.given
    ensures s.values[i].Bool? ==> (s.values[i].on <==> Implementing(s, net.Implementers(i)) != {})
    ensures s.values[i].BoolData? ==> (s.values[i].on <==> Implementing(s, net.Implementers(i)) != {})
    ensures s.values[i].BoolData? || s.values[i].Data? ==> s.values[i].data == Number(|Implementing(s, net.Implementers(i))|)
  {
    hide Count, Implementing;
    CountIsCardinality(s, net.Implementers(i));
    assert Counter(net, s, i);
  }

  /** A value that stands for some count. */
  ghost predicate Tidy(v: Value) {
    match v
    case Flavorless => true
    case Bool(_) => true
    case BoolData(on, d) => d.Number? && d.n >= 0 && on == (d.n > 0)
    case Data(d) => d.Number? && d.n >= 0
  }

  lemma RecountTidy(v: Value, c: nat)
    requires Tidy(v)
    ensures Tidy(Recount(v, c)) && Recount(v, c) == Counting(v, c) == Counting(Recount(v, c), c)
  {
  }

  ghost predicate Counter(net: Net, s: State, i: Node) {
    net.Implementers(i) != [] && i in s.values && i !in s.given
  }

  /** The value of every interface, the exceptions aside, is the number of active and enabled
      nodes that implement it. */
  ghost predicate Counted(net: Net, s: State, except: set<Node>) {
    forall i :: Counter(net, s, i) ==>
      Tidy(s.values[i]) && (i !in except ==> s.values[i] == Counting(s.values[i], Count(s, net.Implementers(i))))
  }

  /** A change that leaves i alone, and that nothing implementing i takes part in. */
  lemma StaysCounted(net: Net, s: State, t: State, i: Node)
    requires t.values.Keys == s.values.Keys && s.given <= t.given
    requires i in s.values ==> i in t.given || t.values[i] == s.values[i]
    requires forall n :: n in net.Implementers(i) ==> Counts(s, n) == Counts(t, n)
    ensures Counter(net, t, i) ==> Counter(net, s, i) && t.values[i] == s.values[i]
    ensures Count(t, net.Implementers(i)) == Count(s, net.Implementers(i))
  {
    hide Counts;
    CountLocal(s, t, net.Implementers(i));
  }

  /** One value changed, possibly with its enabled part. */
  lemma WithValueCounts(net: Net, s: State, n: Node, v: Value, except: set<Node>, except': set<Node>)
    requires net.RefsOk() && Counted(net, s, except) && n in s.values
    requires n in s.given || net.Implementers(n) == [] || (Tidy(v) && v == Counting(v, Count(s, net.Implementers(n))))
    requires except - {n} <= except' && (Enabled(v) == Enabled(s.values[n]) || ToSet(net.Implemented(n)) <= except')
    ensures Counted(net, WithValue(s, n, v), except')
  {
    hide Count, Tidy, Counting, Enabled;
    var t := WithValue(s, n, v);
    forall i | Counter(net, t, i)
      ensures Tidy(t.values[i]) && (i !in except' ==> t.values[i] == Counting(t.values[i], Count(t, net.Implementers(i))))
    {
      assert Counter(net, s, i);
      if i !in except' {
        OthersCount(net, s, n, v, i);
        hide Net.RefsOk;
      }
    }
  }

  lemma OthersCount(net: Net, s: State, n: Node, v: Value, i: Node)
    requires net.RefsOk() && n in s.values && (Enabled(v) == Enabled(s.values[n]) || i !in net.Implemented(n))
    ensures Count(WithValue(s, n, v), net.Implementers(i)) == Count(s, net.Implementers(i))
  {
    hide Enabled, Count;
    CountLocal(WithValue(s, n, v), s, net.Implementers(i));
  }

  lemma FewerUncounted(net: Net, s: State, except: set<Node>, except': set<Node>)
    requires Counted(net, s, except) && forall i :: i in except && Counter(net, s, i) ==> i in except'
    ensures Counted(net, s, except')
  {
    hide Counter, Tidy, Counting, Count;
  }

  // ---------------------------------------------------------------- changes go one way

  /** The count that v stands for may still have to grow to c, or to shrink to c. */
  ghost predicate Behind(v: Value, c: nat, up: bool) {
    match v
    case Flavorless => true
    case Bool(on) => if up then on ==> c > 0 else c > 0 ==> on
    case BoolData(_, d) => d.Number? && if up then d.n <= c else d.n >= c
    case Data(d) => d.Number? && if up then d.n <= c else d.n >= c
  }

  lemma RecountOneWay(v: Value, c: nat, up: bool)
    requires Tidy(v) && Behind(v, c, up)
    ensures var w := Recount(v, c);
      Tidy(w) && w == Counting(w, c) && Behind(w, c, up) && (Enabled(w) != Enabled(v) ==> Enabled(w) == up)
  {
  }

  lemma StaysBehind(v: Value, c: nat, d: nat, up: bool)
    requires Behind(v, c, up) && if up then c <= d else d <= c
    ensures Behind(v, d, up)
  {
  }

  lemma CountedIsBehind(v: Value, c: nat, up: bool)
    requires Tidy(v) && v == Counting(v, c)
    ensures Behind(v, c, up)
  {
  }

  lemma {:induction false} CountGrows(s: State, t: State, nodes: seq<Node>)
    requires forall n :: n in nodes && Counts(s, n) ==> Counts(t, n)
    ensures Count(s, nodes) <= Count(t, nodes)
  {
    hide Enabled;
    if nodes != [] {
      CountGrows(s, t, nodes[..|nodes| - 1]);
      assert nodes[|nodes| - 1] in nodes;
      assert Counts(s, nodes[|nodes| - 1]) ==> Counts(t, nodes[|nodes| - 1]);
    }
  }

  /** While nodes begin to count, or cease to, no interface has the wrong value in the other
      direction, and those that are not open have changed already. */
  ghost predicate Drifts(net: Net, s: State, up: bool, open: set<Node>) {
    forall i :: Counter(net, s, i) ==>
      && Tidy(s.values[i]) && Behind(s.values[i], Count(s, net.Implementers(i)), up)
      && (i !in open ==> Enabled(s.values[i]) == up)
  }

  lemma MoreOpen(net: Net, s: State, up: bool, open: set<Node>, open': set<Node>)
    requires Drifts(net, s, up, open) && open <= open'
    ensures Drifts(net, s, up, open')
  {
    hide Counter, Tidy, Behind, Count, Enabled;
  }

  /** An interface recalculated on the way. */
  lemma WithValueDrifts(net: Net, s: State, n: Node, up: bool, open: set<Node>)
    requires Drifts(net, s, up, open) && Counter(net, s, n)
    ensures var v := Recount(s.values[n], Count(s, net.Implementers(n)));
      && (Enabled(v) != Enabled(s.values[n]) ==> n in open && Enabled(v) == up)
      && Drifts(net, WithValue(s, n, v), up, if Enabled(v) != Enabled(s.values[n]) then open - {n} else open)
  {
    hide Count, Tidy, Behind, Enabled, Recount;
    var v := Recount(s.values[n], Count(s, net.Implementers(n)));
    RecountOneWay(s.values[n], Count(s, net.Implementers(n)), up);
    var t, open' := WithValue(s, n, v), if Enabled(v) != Enabled(s.values[n]) then open - {n} else open;
    forall i | Counter(net, t, i)
      ensures Tidy(t.values[i]) && Behind(t.values[i], Count(t, net.Implementers(i)), up)
      ensures i !in open' ==> Enabled(t.values[i]) == up
    {
      assert Counter(net, s, i);
      if up {
        CountGrows(s, t, net.Implementers(i));
      } else {
        CountGrows(t, s, net.Implementers(i));
      }
      StaysBehind(t.values[i], Count(s, net.Implementers(i)), Count(t, net.Implementers(i)), up);
    }
  }

  /** Recalculating some interfaces counts them, and leaves the others counted. */
  lemma {:induction false} RecalculatedCounts(net: Net, s: State, interfaces: seq<Node>, up: bool, open: set<Node>,
                                              except: set<Node>)
    requires net.RefsOk() && AllInterfaces(net, interfaces)
    requires Drifts(net, s, up, open) && Counted(net, s, except)
    ensures var t := Recalculated(net, s, interfaces, open);
      Drifts(net, t, up, open) && Counted(net, t, except - ToSet(interfaces))
    decreases open, |interfaces|
  {
    hide Net.RefsOk, Counted, Drifts, Recount, Count, Counting, Tidy, WithValue, Enabled, Net.Implemented, Net.Implementers;
    if interfaces == [] {
      assert except - ToSet(interfaces) == except;
    } else {
      var most, i := interfaces[..|interfaces| - 1], interfaces[|interfaces| - 1];
      var t := Recalculated(net, s, most, open);
      assert interfaces == most + [i];
      RecalculatedCounts(net, s, most, up, open, except);
      var e := except - ToSet(most);
      assert e - {i} == except - ToSet(interfaces);
      if Counter(net, t, i) {
        var v := Recount(t.values[i], Count(t, net.Implementers(i)));
        RecountIsCounted(net, t, i, e);
        WithValueDrifts(net, t, i, up, open);
        if Enabled(v) == Enabled(t.values[i]) {
          WithValueCounts(net, t, i, v, e, e - {i});
        } else {
          var others := ToSet(net.Implemented(i));
          WithValueCounts(net, t, i, v, e, e - {i} + others);
          ImplementedAreInterfaces(net, i);
          RecalculatedCounts(net, WithValue(t, i, v), net.Implemented(i), up, open - {i}, e - {i} + others);
          var u := Recalculated(net, s, interfaces, open);
          FewerUncounted(net, u, e - {i} + others - others, e - {i});
          MoreOpen(net, u, up, open - {i}, open);
        }
      } else {
        NotACounter(net, t, i, e);
      }
    }
  }

  lemma RecountIsCounted(net: Net, s: State, i: Node, except: set<Node>)
    requires Counted(net, s, except) && Counter(net, s, i)
    ensures var v := Recount(s.values[i], Count(s, net.Implementers(i)));
      Tidy(v) && v == Counting(v, Count(s, net.Implementers(i)))
  {
    hide Recount, Counting, Tidy, Count;
    RecountTidy(s.values[i], Count(s, net.Implementers(i)));
  }

  lemma NotACounter(net: Net, s: State, i: Node, except: set<Node>)
    requires Counted(net, s, except) && !Counter(net, s, i)
    ensures Counted(net, s, except - {i})
  {
    hide Counter;
    FewerUncounted(net, s, except, except - {i});
  }

  lemma NotImplementing(net: Net, n: Node, i: Node)
    requires net.RefsOk()
    ensures i in net.Implemented(n) <==> n in net.Implementers(i)
  {
  }

  /** A change of node n that begins or ceases to count: before the interfaces are recalculated. */
  lemma ChangeDrifts(net: Net, s: State, t: State, n: Node, up: bool)
    requires net.RefsOk() && Counted(net, s, {})
    requires t.values.Keys == s.values.Keys && s.given <= t.given
    requires n in t.given || net.Implementers(n) == [] || n !in s.values || t.values[n] == s.values[n]
    requires forall m :: m in s.values && m != n ==> t.values[m] == s.values[m]
    requires forall m :: m != n ==> Counts(s, m) == Counts(t, m)
    requires if up then Counts(s, n) ==> Counts(t, n) else Counts(t, n) ==> Counts(s, n)
    ensures Drifts(net, t, up, net.Interfaces()) && Counted(net, t, ToSet(net.Implemented(n)))
  {
    hide Net.RefsOk, Counts, Tidy, Counting, Count, Behind, Enabled;
    var others := ToSet(net.Implemented(n));
    forall i | Counter(net, t, i)
      ensures i in net.Interfaces() && Tidy(t.values[i]) && Behind(t.values[i], Count(t, net.Implementers(i)), up)
      ensures i !in others ==> t.values[i] == Counting(t.values[i], Count(t, net.Implementers(i)))
    {
      assert Counter(net, s, i) && t.values[i] == s.values[i];
      CountedIsBehind(s.values[i], Count(s, net.Implementers(i)), up);
      if up {
        CountGrows(s, t, net.Implementers(i));
      } else {
        CountGrows(t, s, net.Implementers(i));
      }
      StaysBehind(t.values[i], Count(s, net.Implementers(i)), Count(t, net.Implementers(i)), up);
      NotImplementing(net, n, i);
      if i !in others {
        CountLocal(s, t, net.Implementers(i));
      }
    }
  }

  lemma FlaggedDrifts(net: Net, s: State, n: Node, b: bool)
    requires net.RefsOk() && Counted(net, s, {})
    ensures Drifts(net, Flagged(s, n, b), b, net.Interfaces()) && Counted(net, Flagged(s, n, b), ToSet(net.Implemented(n)))
  {
    hide Net.RefsOk, Counted, Drifts, Enabled;
    ChangeDrifts(net, s, Flagged(s, n, b), n, b);
  }

  lemma ValueDrifts(net: Net, s: State, n: Node, v: Value)
    requires net.RefsOk() && Counted(net, s, {}) && n in s.values && (n in s.given || net.Implementers(n) == [])
    ensures Drifts(net, WithValue(s, n, v), Enabled(v), net.Interfaces())
    ensures Counted(net, WithValue(s, n, v), ToSet(net.Implemented(n)))
  {
    hide Net.RefsOk, Counted, Drifts, Enabled;
    assert WithValue(s, n, v).values.Keys == s.values.Keys;
    ChangeDrifts(net, s, WithValue(s, n, v), n, Enabled(v));
  }

  lemma SetActiveCounts(net: Net, s: State, n: Node, b: bool)
    requires net.RefsOk() && Counted(net, s, {})
    ensures Counted(net, SetActive(net, s, n, b), {})
  {
    hide Net.RefsOk, Recalculated, Counted, Drifts, Flagged;
    var others := ToSet(net.Implemented(n));
    FlaggedDrifts(net, s, n, b);
    ImplementedAreInterfaces(net, n);
    RecalculatedCounts(net, Flagged(s, n, b), net.Implemented(n), b, net.Interfaces(), others);
    assert others - others == {};
  }

  lemma SetValueCounts(net: Net, s: State, n: Node, v: Value)
    requires net.RefsOk() && Counted(net, s, {}) && n in s.values && (n in s.given || net.Implementers(n) == [])
    ensures Counted(net, SetValue(net, s, n, v), {})
  {
    hide Net.RefsOk, Recalculated, Counted, Enabled, WithValue, Drifts;
    if Enabled(v) == Enabled(s.values[n]) {
      WithValueCounts(net, s, n, v, {}, {});
    } else {
      var others := ToSet(net.Implemented(n));
      ValueDrifts(net, s, n, v);
      ImplementedAreInterfaces(net, n);
      RecalculatedCounts(net, WithValue(s, n, v), net.Implemented(n), Enabled(v), net.Interfaces(), others);
      assert others - others == {};
    }
  }

  lemma GivenCounts(net: Net, s: State, n: Node)
    requires Counted(net, s, {})
    ensures Counted(net, s.(given := s.given + {n}), {})
  {
    hide Tidy, Counting, Count;
    var g := s.(given := s.given + {n});
    forall i | Counter(net, g, i)
      ensures Tidy(g.values[i]) && g.values[i] == Counting(g.values[i], Count(g, net.Implementers(i)))
    {
      assert Counter(net, s, i);
      StaysCounted(net, s, g, i);
    }
  }

  lemma GiveCounts(net: Net, s: State, n: Node, v: Value)
    requires net.RefsOk() && Counted(net, s, {}) && n in s.values
    ensures Counted(net, Give(net, s, n, v), {})
  {
    hide Net.RefsOk, SetValue, Counted;
    GivenCounts(net, s, n);
    SetValueCounts(net, s.(given := s.given + {n}), n, v);
  }

  lemma UpdatedCounts(net: Net, s: State, u: Update)
    requires net.RefsOk() && Counted(net, s, {}) && (u.Compute? ==> u.node in net.computed)
    ensures Counted(net, Updated(net, s, u), {})
  {
    hide Net.RefsOk, SetActive, SetValue, Wanted, Counted, Set;
    match u {
      case Test(n) => SetActiveCounts(net, s, n, Wanted(net, s, n));
      case Compute(n) =>
        InterfaceHasNoExpression(net, n);
        if n in s.values && n !in s.given {
          SetValueCounts(net, s, n, Set(s.values[n], net.results(n, s.active, s.values)));
        }
    }
  }

  lemma {:induction false} AllUpdatedCounts(net: Net, s: State, updates: seq<Update>, i: nat)
    requires net.RefsOk() && Counted(net, s, {}) && i <= |updates|
    requires forall u :: u in updates && u.Compute? ==> u.node in net.computed
    ensures Counted(net, AllUpdated(net, s, updates, i), {})
  {
    hide Net.RefsOk, Updated, Counted;
    if i > 0 {
      AllUpdatedCounts(net, s, updates, i - 1);
      UpdatedCounts(net, AllUpdated(net, s, updates, i - 1), updates[i - 1]);
    }
  }

  lemma ComputesComputed(net: Net, u: Update, x: Node)
    requires net.RefsOk()
    ensures net.Depends(u, x) && u.Compute? ==> u.node in net.computed
  {
  }

  lemma RestCounts(net: Net, s: State)
    requires Counted(net, s, {}) && !Quiet(s)
    ensures Counted(net, Rest(s), {})
  {
    hide Tidy, Counting, Count;
    var r := Rest(s);
    forall i | Counter(net, r, i)
      ensures Tidy(r.values[i]) && r.values[i] == Counting(r.values[i], Count(r, net.Implementers(i)))
    {
      assert Counter(net, s, i);
      StaysCounted(net, s, r, i);
    }
  }

  lemma VisitCounts(net: Net, depth: map<Node, nat>, s: State)
    requires net.Ok(depth) && Steady(net, s) && Counted(net, s, {}) && !Quiet(s)
    ensures Counted(net, Visited(net, Rest(s), Next(s)), {})
  {
    hide View.Ok, Net.Local, Net.RefsOk, Net.Dependents, AllUpdated, Counted, Rest, Next;
    var x, r := Next(s), Rest(s);
    RestCounts(net, s);
    if x in net.tree.attached {
      var d := net.Dependents(x);
      WaitingSplit(s, x);
      forall u ensures u in d && u.Compute? ==> u.node in net.computed {
        DependentsAre(net, depth, u, x);
        ComputesComputed(net, u, x);
      }
      AllUpdatedCounts(net, r, d, |d|);
    }
  }

  /** In every state of a run the interfaces are counted, even while changes wait. */
  lemma {:induction false} RunCounts(net: Net, depth: map<Node, nat>, s: State, k: nat)
    requires net.Ok(depth) && Steady(net, s) && Noticed(net, s, {}) && Counted(net, s, {})
    ensures Counted(net, Steps(net, s, k), {})
  {
    hide Net.Ok, Steady, Noticed, Counted, Visited, Rest, Next, Quiet;
    if k > 0 {
      RunCounts(net, depth, s, k - 1);
      RunKeeps(net, depth, s, k - 1);
      var t := Steps(net, s, k - 1);
      if !Quiet(t) {
        VisitCounts(net, depth, t);
      }
    }
  }
}
