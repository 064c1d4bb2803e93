/** The ring of remembered command lines (ecos/ecosap/shell/shelltask.c). */
module ShellHistory {

  class HistoryNode {
    /** The command line, as a string. */
    var line: string
    var pos: nat
    var prev: HistoryNode?
    var next: HistoryNode?

    constructor (pos: nat)
      ensures line == "" && this.pos == pos && prev == null && next == null
    {
      line, this.pos, prev, next := "", pos, null, null;
    }
  }

  // ---------------------------------------------------------------- positions in the ring

  function Next(p: nat, n: nat): nat {
    if p + 1 == n then 0 else p + 1
  }

  function Prev(p: nat, n: nat): nat {
    if p == 0 && n > 0 then n - 1 else if p == 0 then 0 else p - 1
  }

  /** j steps back. */
  function Back(p: nat, n: nat, j: nat): nat {
    if j == 0 then p else Prev(Back(p, n, j - 1), n)
  }

  lemma {:induction false} BackIs(p: nat, n: nat, j: nat)
    requires p < n && j <= n
    ensures Back(p, n, j) == if j <= p then p - j else p + n - j
  {
    if j > 0 {
      BackIs(p, n, j - 1);
    }
  }

  lemma {:induction false} BackAfterNext(p: nat, n: nat, j: nat)
    requires p < n
    ensures Back(Next(p, n), n, j + 1) == Back(p, n, j)
  {
    if j > 0 {
      BackAfterNext(p, n, j - 1);
    }
  }

  // ---------------------------------------------------------------- the ring

  /** The nodes are distinct, and next and prev lead from each to its neighbours. */
  ghost predicate Ring(nodes: seq<HistoryNode>)
    reads nodes
  {
    && |nodes| > 0 && (forall i, j :: 0 <= i < j < |nodes| ==> nodes[i] != nodes[j])
    && (forall k :: 0 <= k < |nodes| ==> nodes[k].next == nodes[Next(k, |nodes|)] && nodes[k].prev == nodes[Prev(k, |nodes|)])
  }

  /** A chain that is not closed yet. */
  ghost predicate Chain(nodes: seq<HistoryNode>)
    reads nodes
  {
    && (forall i, j :: 0 <= i < j < |nodes| ==> nodes[i] != nodes[j])
    && (forall k :: 0 <= k < |nodes| - 1 ==> nodes[k].next == nodes[k + 1])
    && (forall k :: 0 < k < |nodes| ==> nodes[k].prev == nodes[k - 1])
    && (|nodes| > 0 ==> nodes[0].prev == null && nodes[|nodes| - 1].next == null)
  }

  /** next and prev undo each other on a ring, and lead nowhere else. */
  lemma NextPrevInverse(nodes: seq<HistoryNode>, node: HistoryNode)
    requires Ring(nodes) && node in nodes
    ensures node.next != null && node.prev != null && node.next in nodes && node.prev in nodes
    ensures node.next.prev == node && node.prev.next == node
  {
    var k :| 0 <= k < |nodes| && nodes[k] == node;
    assert Prev(Next(k, |nodes|), |nodes|) == k && Next(Prev(k, |nodes|), |nodes|) == k;
  }

  /** Fresh entries, numbered downwards from size. */
  ghost predicate Blank(nodes: seq<HistoryNode>, size: nat)
    reads nodes
  {
    |nodes| <= size && forall k :: 0 <= k < |nodes| ==> nodes[k].line == "" && nodes[k].pos == size - k
  }

  /** add_shell_history_node: a node behind the last one of a chain. */
  method AddHistoryNode(history: HistoryNode, pos: nat, ghost nodes: seq<HistoryNode>) returns (s: HistoryNode)
    requires Chain(nodes) && |nodes| > 0 && nodes[|nodes| - 1] == history && Blank(nodes, |nodes| + pos)
    requires pos > 0
    modifies history`next
    ensures fresh(s) && Chain(nodes + [s]) && Blank(nodes + [s], |nodes| + pos)
  {
    s := new HistoryNode(pos);
    assert forall k :: 0 <= k < |nodes| ==> nodes[k] != s;
    assert forall k :: 0 <= k < |nodes| - 1 ==> nodes[k] != history;
    history.next := s;
    s.prev := history;
    ChainGrown(nodes, s);
    assert Blank(nodes, |nodes| + pos);
    BlankGrown(nodes, s, |nodes| + pos);
  }

  lemma ChainGrown(nodes: seq<HistoryNode>, s: HistoryNode)
    requires |nodes| > 0 && (forall i, j :: 0 <= i < j < |nodes| ==> nodes[i] != nodes[j])
    requires forall k :: 0 <= k < |nodes| ==> nodes[k] != s
    requires forall k :: 0 <= k < |nodes| - 1 ==> nodes[k].next == nodes[k + 1]
    requires forall k :: 0 < k < |nodes| ==> nodes[k].prev == nodes[k - 1]
    requires nodes[0].prev == null && nodes[|nodes| - 1].next == s && s.prev == nodes[|nodes| - 1] && s.next == null
    ensures Chain(nodes + [s])
  {
  }

  lemma BlankGrown(nodes: seq<HistoryNode>, s: HistoryNode, size: nat)
    requires Blank(nodes, size) && |nodes| < size && s.line == "" && s.pos == size - |nodes|
    ensures Blank(nodes + [s], size)
  {
  }

  /** The ends of a chain joined. */
  method CloseRing(start: HistoryNode, last: HistoryNode, ghost nodes: seq<HistoryNode>)
    requires Chain(nodes) && |nodes| > 0 && nodes[0] == start && nodes[|nodes| - 1] == last && Blank(nodes, |nodes|)
    modifies start`prev, last`next
    ensures Ring(nodes) && Blank(nodes, |nodes|)
  {
    hide Ring, Next, Prev;
    ghost var n := |nodes|;
    assert forall k :: 0 < k < n ==> nodes[k] != start;
    assert forall k :: 0 <= k < n - 1 ==> nodes[k] != last;
    last.next := start;
    start.prev := last;
    ChainEnds(nodes);
  }

  lemma ChainEnds(nodes: seq<HistoryNode>)
    requires |nodes| > 0 && (forall i, j :: 0 <= i < j < |nodes| ==> nodes[i] != nodes[j])
    requires forall k :: 0 <= k < |nodes| - 1 ==> nodes[k].next == nodes[k + 1]
    requires forall k :: 0 < k < |nodes| ==> nodes[k].prev == nodes[k - 1]
    requires nodes[|nodes| - 1].next == nodes[0] && nodes[0].prev == nodes[|nodes| - 1]
    ensures Ring(nodes)
  {
  }

  /** build_hist_list: a ring of size nodes. */
  method BuildHistoryList(size: nat) returns (start: HistoryNode, ghost nodes: seq<HistoryNode>)
    requires size > 0
    ensures |nodes| == size && nodes[0] == start && Ring(nodes) && fresh(nodes) && Blank(nodes, size)
  {
    start := new HistoryNode(size);
    var sh := start;
    nodes := [start];
    var i := size - 1;
    while i > 0
      invariant 0 <= i < size && |nodes| == size - i && nodes[0] == start && sh == nodes[|nodes| - 1]
      invariant Chain(nodes) && fresh(nodes) && Blank(nodes, size)
    {
      hide Chain, Blank;
      sh := AddHistoryNode(sh, i, nodes);
      nodes := nodes + [sh];
      i := i - 1;
    }
    CloseRing(start, sh, nodes);
  }
}
