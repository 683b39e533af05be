/** Finite directed graphs kept as adjacency maps, the shape in which the effect analyzer and
    the focus comparator both store them. */
module Graphs {
  type NodeId = string
  type Graph = map<NodeId, set<NodeId>>

  datatype Edge = Edge(from: NodeId, to: NodeId)

  function Succ(g: Graph, x: NodeId): set<NodeId> {
    if x in g then g[x] else {}
  }

  function Vertices(g: Graph): set<NodeId> {
    g.Keys + set x, y | x in g && y in g[x] :: y
  }

  /** A walk is a non-empty sequence of nodes in which each node has an edge to the next. */
  ghost predicate IsWalk(g: Graph, p: seq<NodeId>) {
    p != [] && forall i :: 0 < i < |p| ==> p[i] in Succ(g, p[i - 1])
  }

  ghost predicate WalkBetween(g: Graph, p: seq<NodeId>, a: NodeId, b: NodeId) {
    IsWalk(g, p) && p[0] == a && p[|p| - 1] == b
  }

  ghost predicate Reaches(g: Graph, a: NodeId, b: NodeId) {
    exists p :: WalkBetween(g, p, a, b)
  }

  ghost predicate NoDuplicates<T(!new)>(s: seq<T>) {
    forall i, j :: 0 <= i < j < |s| ==> s[i] != s[j]
  }

  /** `s` lists the members of `S`, each once. */
  ghost predicate Lists<T(!new)>(s: seq<T>, S: set<T>) {
    NoDuplicates(s) && forall x :: x in s <==> x in S
  }

  lemma ListsOneMore<T(!new)>(s: seq<T>, S: set<T>, x: T)
    requires Lists(s, S) && x !in S
    ensures Lists(s + [x], S + {x})
  {
  }

  /** The members of `S` in some order. */
  ghost function ListOf<T(!new)>(S: set<T>): (s: seq<T>)
    ensures Lists(s, S)
    decreases |S|
  {
    if S == {} then []
    else
      var x :| x in S;
      ListsOneMore(ListOf(S - {x}), S - {x}, x);
      assert S - {x} + {x} == S;
      ListOf(S - {x}) + [x]
  }

  /** A cycle is a walk whose last node has an edge back to its first. */
  ghost predicate IsCycle(g: Graph, c: seq<NodeId>) {
    IsWalk(g, c) && c[0] in Succ(g, c[|c| - 1])
  }

  ghost predicate Acyclic(g: Graph) {
    forall c :: !IsCycle(g, c)
  }

  /** `S` has no edge leaving it. */
  ghost predicate Closed(g: Graph, S: set<NodeId>) {
    forall x :: x in S ==> Succ(g, x) <= S
  }

  lemma ReachesSelf(g: Graph, a: NodeId)
    ensures Reaches(g, a, a)
  {
    assert WalkBetween(g, [a], a, a);
  }

  lemma ReachesStep(g: Graph, a: NodeId, b: NodeId, c: NodeId)
    requires Reaches(g, a, b) && c in Succ(g, b)
    ensures Reaches(g, a, c)
  {
    var p :| WalkBetween(g, p, a, b);
    assert WalkBetween(g, p + [c], a, c);
  }

  lemma ReachesTransitive(g: Graph, a: NodeId, b: NodeId, c: NodeId)
    requires Reaches(g, a, b) && Reaches(g, b, c)
    ensures Reaches(g, a, c)
  {
    var p :| WalkBetween(g, p, a, b);
    var q :| WalkBetween(g, q, b, c);
    assert WalkBetween(g, p + q[1..], a, c);
  }

  lemma WalkReaches(g: Graph, p: seq<NodeId>, i: nat, j: nat)
    requires IsWalk(g, p) && i <= j < |p|
    ensures Reaches(g, p[i], p[j])
  {
    assert WalkBetween(g, p[i..j + 1], p[i], p[j]);
  }

  /** A walk that starts inside a closed set never leaves it. */
  lemma {:induction false} WalkStaysInClosed(g: Graph, S: set<NodeId>, p: seq<NodeId>, i: nat)
    requires Closed(g, S) && IsWalk(g, p) && p[0] in S && i < |p|
    ensures p[i] in S
  {
    if i > 0 {
      WalkStaysInClosed(g, S, p, i - 1);
    }
  }

  lemma ReachesStaysInClosed(g: Graph, S: set<NodeId>, a: NodeId, b: NodeId)
    requires Closed(g, S) && a in S && Reaches(g, a, b)
    ensures b in S
  {
    var p :| WalkBetween(g, p, a, b);
    WalkStaysInClosed(g, S, p, |p| - 1);
  }

  lemma VerticesClosed(g: Graph, extra: set<NodeId>)
    ensures Closed(g, Vertices(g) + extra)
  {
  }

  /** Everything reachable from `a`, `a` included. */
  ghost function ReachSet(g: Graph, a: NodeId): set<NodeId> {
    set x | x in Vertices(g) + {a} && Reaches(g, a, x)
  }

  lemma ReachSetExact(g: Graph, a: NodeId)
    ensures forall x :: x in ReachSet(g, a) <==> Reaches(g, a, x)
    ensures Closed(g, ReachSet(g, a)) && a in ReachSet(g, a)
  {
    VerticesClosed(g, {a});
    ReachesSelf(g, a);
    forall x | Reaches(g, a, x) ensures x in ReachSet(g, a) {
      ReachesStaysInClosed(g, Vertices(g) + {a}, a, x);
    }
    forall x, y | x in ReachSet(g, a) && y in Succ(g, x) ensures y in ReachSet(g, a) {
      ReachesStep(g, a, x, y);
    }
  }

  /** The least closed set around `a`: a closed set of nodes that `a` reaches is exactly `ReachSet`. */
  lemma ClosedReachableIsReachSet(g: Graph, a: NodeId, S: set<NodeId>)
    requires a in S && Closed(g, S)
    requires forall x :: x in S ==> Reaches(g, a, x)
    ensures S == ReachSet(g, a)
  {
    ReachSetExact(g, a);
    forall x | x in ReachSet(g, a) ensures x in S {
      ReachesStaysInClosed(g, S, a, x);
    }
  }

  /** The edges that leave a node of `S`. */
  ghost function EdgesFrom(g: Graph, S: set<NodeId>): set<Edge> {
    set x, y | x in S && y in Succ(g, x) :: Edge(x, y)
  }

  lemma {:induction false} SubsetCardinality<T>(a: set<T>, b: set<T>)
    requires a <= b
    ensures |a| <= |b|
  {
    if a != {} {
      var x :| x in a;
      SubsetCardinality(a - {x}, b - {x});
    }
  }

  lemma {:induction false} FanCardinality(x: NodeId, ys: set<NodeId>)
    ensures |set y | y in ys :: Edge(x, y)| == |ys|
  {
    if ys == {} {
      assert (set y | y in ys :: Edge(x, y)) == {};
    } else {
      var z :| z in ys;
      FanCardinality(x, ys - {z});
      assert (set y | y in ys :: Edge(x, y)) == (set y | y in ys - {z} :: Edge(x, y)) + {Edge(x, z)};
    }
  }

  /** Visiting one more node pays for exactly its out-degree. */
  lemma EdgesFromGrows(g: Graph, S: set<NodeId>, x: NodeId)
    requires x !in S
    ensures |EdgesFrom(g, S + {x})| == |EdgesFrom(g, S)| + |Succ(g, x)|
  {
    var fan := set y | y in Succ(g, x) :: Edge(x, y);
    FanCardinality(x, Succ(g, x));
    forall e ensures e in EdgesFrom(g, S + {x}) <==> e in EdgesFrom(g, S) || e in fan {
    }
    assert EdgesFrom(g, S + {x}) == EdgesFrom(g, S) + fan;
    assert EdgesFrom(g, S) !! fan;
  }

  lemma EdgesFromMonotone(g: Graph, S: set<NodeId>, R: set<NodeId>)
    requires S <= R
    ensures |EdgesFrom(g, S)| <= |EdgesFrom(g, R)|
  {
    SubsetCardinality(EdgesFrom(g, S), EdgesFrom(g, R));
  }

  function Sources(edges: seq<Edge>): set<NodeId> {
    set e | e in edges :: e.from
  }

  /** The adjacency map of an edge list. */
  ghost function GraphOf(edges: seq<Edge>): (g: Graph)
    ensures forall x, y :: y in Succ(g, x) <==> Edge(x, y) in edges
  {
    map x | x in Sources(edges) :: (set e | e in edges && e.from == x :: e.to)
  }

  /** Both analyzers build it with `entry(from).or_default().insert(to)`. */
  method BuildGraph(edges: seq<Edge>) returns (g: Graph)
    ensures g == GraphOf(edges)
  {
    g := map[];
    for i := 0 to |edges|
      invariant forall x, y :: y in Succ(g, x) <==> Edge(x, y) in edges[..i]
      invariant forall x :: x in g ==> g[x] != {}
    {
      var e := edges[i];
      g := g[e.from := Succ(g, e.from) + {e.to}];
    }
    assert edges[..|edges|] == edges;
    GraphExtensional(g, edges);
  }

  lemma GraphExtensional(g: Graph, edges: seq<Edge>)
    requires forall x, y :: y in Succ(g, x) <==> Edge(x, y) in edges
    requires forall x :: x in g ==> g[x] != {}
    ensures g == GraphOf(edges)
  {
    var h := GraphOf(edges);
    forall x | x in g ensures x in h {
      var y :| y in Succ(g, x);
      assert Edge(x, y) in edges;
    }
    forall e | e in edges ensures e.from in g {
      assert e.to in Succ(g, e.from);
    }
    assert g.Keys == h.Keys;
    forall x | x in g ensures g[x] == h[x] {
      assert forall y :: y in Succ(g, x) <==> y in Succ(h, x);
    }
  }
}
