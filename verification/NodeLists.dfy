/** Vectors without duplicates: the positions, erasures and insertions the hierarchy uses. */
module NodeLists {

  import opened Common

  /** std::find as an index; |s| when x does not occur. */
  function IndexOf<T(==)>(s: seq<T>, x: T): (i: nat)
    ensures i <= |s| && (i < |s| ==> s[i] == x) && (x in s ==> i < |s|)
    ensures forall k :: 0 <= k < i ==> s[k] != x
  {
    if s == [] || s[0] == x then 0 else 1 + IndexOf(s[1..], x)
  }

  function RemoveAt<T>(s: seq<T>, i: nat): seq<T>
    requires i < |s|
  {
    s[..i] + s[i + 1..]
  }

  function InsertAt<T>(s: seq<T>, i: nat, x: T): seq<T>
    requires i <= |s|
  {
    s[..i] + [x] + s[i..]
  }

  /** x put in at a position, or last if the position is -1. */
  function Placed<T>(s: seq<T>, x: T, pos: int): seq<T> {
    if 0 <= pos <= |s| then InsertAt(s, pos, x) else s + [x]
  }

  function Without<T(==)>(s: seq<T>, x: T): seq<T> {
    if x in s then RemoveAt(s, IndexOf(s, x)) else s
  }

  lemma RemoveAtDistinct<T>(s: seq<T>, i: nat)
    requires Distinct(s) && i < |s|
    ensures Distinct(RemoveAt(s, i))
    ensures forall x :: x in RemoveAt(s, i) <==> x in s && x != s[i]
  {
    var r := RemoveAt(s, i);
    forall x | x in s && x != s[i] ensures x in r {
      var k :| 0 <= k < |s| && s[k] == x;
      assert r[if k < i then k else k - 1] == x;
    }
  }

  lemma InsertAtDistinct<T>(s: seq<T>, i: nat, x: T)
    requires Distinct(s) && i <= |s| && x !in s
    ensures Distinct(InsertAt(s, i, x))
    ensures forall y :: y in InsertAt(s, i, x) <==> y in s || y == x
  {
    var r := InsertAt(s, i, x);
    assert r[i] == x;
    forall y | y in s ensures y in r {
      var k :| 0 <= k < |s| && s[k] == y;
      assert r[if k < i then k else k + 1] == y;
    }
  }

  lemma WithoutDistinct<T>(s: seq<T>, x: T)
    requires Distinct(s)
    ensures Distinct(Without(s, x))
    ensures forall y :: y in Without(s, x) <==> y in s && y != x
  {
    if x in s {
      RemoveAtDistinct(s, IndexOf(s, x));
    }
  }

  /** Erasing and inserting at the same place cancel. */
  lemma RemoveInsert<T>(s: seq<T>, i: nat)
    requires i < |s|
    ensures |RemoveAt(s, i)| == |s| - 1 && InsertAt(RemoveAt(s, i), i, s[i]) == s
  {
  }

  lemma AppendDistinct<T>(s: seq<T>, x: T)
    requires Distinct(s) && x !in s
    ensures Distinct(s + [x]) && s + [x] == InsertAt(s, |s|, x)
    ensures forall y :: y in s + [x] <==> y in s || y == x
  {
  }

  // ---------------------------------------------------------------- links and lists

  /** A link (parent or owner) and the lists on its other side (contents or owned) say the
      same: each linked node is exactly once in the list of the node it is linked to. */
  ghost predicate Mirror<N>(nodes: set<N>, link: map<N, N>, lists: map<N, seq<N>>)
  {
    && lists.Keys == nodes && link.Keys <= nodes
    && (forall n, c :: n in nodes && c in lists[n] ==> c in link && link[c] == n)
    && (forall c :: c in link ==> link[c] in nodes && c in lists[link[c]])
    && (forall n :: n in nodes ==> Distinct(lists[n]))
  }

  lemma MirrorNew<N>(nodes: set<N>, link: map<N, N>, lists: map<N, seq<N>>, n: N)
    requires Mirror(nodes, link, lists) && n !in nodes
    ensures Mirror(nodes + {n}, link, lists[n := []])
  {
  }

  lemma MirrorLink<N>(nodes: set<N>, link: map<N, N>, lists: map<N, seq<N>>, n: N, p: N, pos: nat)
    requires Mirror(nodes, link, lists) && n in nodes && p in nodes && n !in link && pos <= |lists[p]|
    ensures n !in lists[p]
    ensures Mirror(nodes, link[n := p], lists[p := InsertAt(lists[p], pos, n)])
  {
    InsertAtDistinct(lists[p], pos, n);
  }

  lemma MirrorCut<N>(nodes: set<N>, link: map<N, N>, lists: map<N, seq<N>>, n: N)
    requires Mirror(nodes, link, lists) && n in link
    ensures link[n] in nodes && n in lists[link[n]]
    ensures Mirror(nodes, link - {n}, lists[link[n] := Without(lists[link[n]], n)])
  {
    WithoutDistinct(lists[link[n]], n);
  }

  lemma MirrorDrop<N>(nodes: set<N>, link: map<N, N>, lists: map<N, seq<N>>, n: N)
    requires Mirror(nodes, link, lists) && n in nodes && n !in link && lists[n] == []
    ensures Mirror(nodes - {n}, link, lists - {n})
  {
  }
}
