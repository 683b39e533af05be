/** Two migrations in a row: what survives the pair when each survives its own comparison. */
module MigrationChain {
  import opened Graphs
  import opened Accessibility
  import opened FocusGraph
  import opened NodeComparison
  import opened AccessibilityDiff
  import opened AccessibilityLaws
  import opened Options

  /** Nodes, actions and announcements that survive two migrations in a row survive the pair of them, so only the
      focus traversal is left: the second migration is held to the intermediate order and not to the first one. */
  lemma PreservationComposes(a: Run, b: Run, c: Run, config: Config)
    requires UniqueIds(b) && Preserves(a, b, config) && Preserves(b, c, config)
    ensures Preserves(a, c, config) <==> FocusKept(FocusOrderOf(NodeMap(a.nodes)), c, config)
    ensures !config.requireFocusReachability ==> Preserves(a, c, config)
  {
    hide ActionMap, NodeMap, AnnouncementMap, FocusOrderOf, NodePreserved, ActionIds;
    var ab, bc, ac := SidesOf(a, b), SidesOf(b, c), SidesOf(a, c);
    forall id | id in ac.source ensures PreservedAt(ac, config, id) {
      assert PreservedAt(ab, config, id);
      assert PreservedAt(bc, config, id);
      UniqueActionsFound(b, ab.translated[id]);
      NodePreservationComposes(ActionMap(a.nodes), ActionMap(b.nodes), ActionMap(c.nodes), config,
                               ac.source[id], ab.translated[id], ac.translated[id]);
    }
    forall id | id in ac.sourceAnnouncements ensures AnnouncementKept(ac, id) {
      assert AnnouncementKept(ab, id);
      assert AnnouncementKept(bc, id);
    }
  }

  lemma NodePreservationComposes(a: map<ActionKey, Action>, b: map<ActionKey, Action>, c: map<ActionKey, Action>,
                                 config: Config, s: Node, t: Node, u: Node)
    requires s.nodeId == t.nodeId && forall k :: k in b && k.0 == t.nodeId ==> b[k] in t.actions && b[k].actionId == k.1
    requires NodePreserved(s, t, Actions(a, b), config) && NodePreserved(t, u, Actions(b, c), config)
    ensures NodePreserved(s, u, Actions(a, c), config)
  {
    forall x | x in s.actions ensures !ActionLost((s.nodeId, x.actionId), Actions(a, c)) {
      var k := (s.nodeId, x.actionId);
      if k in a {
        assert !ActionLost(k, Actions(a, b));
        assert !ActionLost((t.nodeId, b[k].actionId), Actions(b, c));
      }
    }
  }

  function Target(id: NodeId, position: U32): Node {
    Node(id, OtherRole(0), None, None, true, true, Some(position), [], None, None)
  }

  /** Two focus targets, the first ahead of the second, and the transitions between them. */
  function TwoTargets(first: NodeId, second: NodeId, transitions: seq<Edge>): Run {
    Run([Target(first, 0), Target(second, 1)], transitions, [])
  }

  lemma TwoTargetsMaps(first: NodeId, second: NodeId, transitions: seq<Edge>)
    requires first != second
    ensures var r := TwoTargets(first, second, transitions);
            && UniqueIds(r) && ActionMap(r.nodes) == map[] && AnnouncementMap(r.announcements) == map[]
            && NodeMap(r.nodes) == map[first := Target(first, 0), second := Target(second, 1)]
  {
    var r := TwoTargets(first, second, transitions);
    assert r.nodes[..1] == [Target(first, 0)] && [Target(first, 0)][..0] == [];
    assert NodeMap([Target(first, 0)]) == map[first := Target(first, 0)];
  }

  lemma TwoTargetsOrder(first: NodeId, second: NodeId)
    requires first != second
    ensures FocusOrderOf(map[first := Target(first, 0), second := Target(second, 1)]) == [first, second]
  {
    var m := map[first := Target(first, 0), second := Target(second, 1)];
    assert OrderKey(m, first) == 0 && OrderKey(m, second) == 1 && Before(m)(first, second);
    assert forall id :: id in [first, second] <==> id in FocusTargets(m);
    FocusOrderUnique(m, FocusOrderOf(m), [first, second]);
  }

  lemma TargetPreserved(id: NodeId, p: U32, q: U32, m: Actions, config: Config)
    ensures NodePreserved(Target(id, p), Target(id, q), m, config)
  {
  }

  lemma TwoTargetsKept(a: NodeId, b: NodeId, c: NodeId, d: NodeId, transitions: seq<Edge>, config: Config)
    requires (c == a && d == b) || (c == b && d == a)
    requires config.requireFocusReachability
    ensures FocusKept([a, b], TwoTargets(c, d, transitions), config) <==> Reaches(GraphOf(transitions), a, b)
  {
    var r := TwoTargets(c, d, transitions);
    assert r.nodes[0] in r.nodes && r.nodes[1] in r.nodes;
    assert TargetIn(r.nodes, c) && TargetIn(r.nodes, d);
    assert forall n :: n in r.nodes ==> n.nodeId == c || n.nodeId == d;
    assert [a, b][0] == a && [a, b][1] == b && a in [a, b] && b in [a, b];
  }

  lemma SameTargetsPreserved(x: Sides, a: NodeId, b: NodeId, p: U32, q: U32, p': U32, q': U32, config: Config)
    requires x.source == map[a := Target(a, p), b := Target(b, q)]
    requires x.translated == map[a := Target(a, p'), b := Target(b, q')]
    ensures forall id :: id in x.source ==> PreservedAt(x, config, id)
  {
    hide NodePreserved;
    forall id | id in x.source ensures PreservedAt(x, config, id) {
      TargetPreserved(id, if id == b then q else p, if id == b then q' else p', x.actions, config);
    }
  }

  /** The same two targets in runs with different transitions: only the traversal can be lost. */
  lemma TwoTargetsPreserved(a: NodeId, b: NodeId, c: NodeId, d: NodeId, es: seq<Edge>, es': seq<Edge>, config: Config)
    requires a != b && ((c == a && d == b) || (c == b && d == a)) && config.requireFocusReachability
    ensures Preserves(TwoTargets(a, b, es), TwoTargets(c, d, es'), config) <==> Reaches(GraphOf(es'), a, b)
  {
    hide NodeMap, ActionMap, AnnouncementMap, FocusOrderOf, FocusKept, TwoTargets, PreservedAt;
    TwoTargetsMaps(a, b, es);
    TwoTargetsMaps(c, d, es');
    TwoTargetsOrder(a, b);
    TwoTargetsKept(a, b, c, d, es', config);
    var x := SidesOf(TwoTargets(a, b, es), TwoTargets(c, d, es'));
    if c == a {
      SameTargetsPreserved(x, a, b, 0, 1, 0, 1, config);
    } else {
      assert x.translated == map[a := Target(a, 1), b := Target(b, 0)];
      SameTargetsPreserved(x, a, b, 0, 1, 1, 0, config);
    }
  }

  /** The focus traversal need not survive two migrations that each keep it: the first may reverse the declared
      order, and the second then owes only the reversed one. */
  lemma TraversalNeedNotCompose(u: NodeId, v: NodeId, config: Config) returns (a: Run, b: Run, c: Run)
    requires u != v && config.requireFocusReachability
    ensures UniqueIds(b) && Preserves(a, b, config) && Preserves(b, c, config) && !Preserves(a, c, config)
  {
    hide Preserves, UniqueIds, NodeMap, ActionMap, AnnouncementMap, TwoTargets;
    var both, back := [Edge(u, v), Edge(v, u)], [Edge(v, u)];
    a, b, c := TwoTargets(u, v, []), TwoTargets(v, u, both), TwoTargets(v, u, back);
    TwoTargetsMaps(v, u, both);
    TwoTargetsPreserved(u, v, v, u, [], both, config);
    TwoTargetsPreserved(v, u, v, u, both, back, config);
    TwoTargetsPreserved(u, v, v, u, [], back, config);
    OneEdgeReaches(both, u, v);
    OneEdgeReaches(back, v, u);
    OneEdgeIsOneWay(v, u);
  }

  lemma OneEdgeIsOneWay(x: NodeId, y: NodeId)
    requires x != y
    ensures !Reaches(GraphOf([Edge(x, y)]), y, x)
  {
    var g := GraphOf([Edge(x, y)]);
    if Reaches(g, y, x) {
      assert forall z :: z in Succ(g, y) <==> Edge(y, z) in [Edge(x, y)];
      ReachesStaysInClosed(g, {y}, y, x);
      assert false;
    }
  }

  lemma OneEdgeReaches(edges: seq<Edge>, x: NodeId, y: NodeId)
    requires Edge(x, y) in edges
    ensures Reaches(GraphOf(edges), x, y)
  {
    ReachesSelf(GraphOf(edges), x);
    ReachesStep(GraphOf(edges), x, x, y);
  }

  // ----- when the traversal survives whatever the second migration does -----

  ghost predicate StandsBefore(q: seq<NodeId>, x: NodeId, y: NodeId) {
    exists j, k :: 0 <= j < k < |q| && q[j] == x && q[k] == y
  }

  /** The traversal `p` is still found in `q`: its neighbours stand in the same order, and nothing comes ahead of it. */
  ghost predicate OrderSurvives(p: seq<NodeId>, q: seq<NodeId>) {
    && (q == [] || q[0] in p)
    && forall i :: 0 < i < |p| ==> StandsBefore(q, p[i - 1], p[i])
  }

  /** The transitions that allow one walk along `q` and nothing else. */
  function Along(q: seq<NodeId>): (edges: seq<Edge>)
    ensures |edges| == if q == [] then 0 else |q| - 1
    ensures forall i :: 0 <= i < |edges| ==> edges[i] == Edge(q[i], q[i + 1])
  {
    if q == [] then [] else seq(|q| - 1, i requires 0 <= i < |q| - 1 => Edge(q[i], q[i + 1]))
  }

  lemma {:induction false} AlongReachesForward(q: seq<NodeId>, i: nat, j: nat)
    requires i <= j < |q|
    ensures Reaches(GraphOf(Along(q)), q[i], q[j])
    decreases j - i
  {
    if i == j {
      ReachesSelf(GraphOf(Along(q)), q[i]);
    } else {
      AlongReachesForward(q, i, j - 1);
      assert Along(q)[j - 1] == Edge(q[j - 1], q[j]);
      ReachesStep(GraphOf(Along(q)), q[i], q[j - 1], q[j]);
    }
  }

  lemma AlongReachesOnlyForward(q: seq<NodeId>, i: nat, y: NodeId) returns (k: nat)
    requires NoDuplicates(q) && i < |q| && Reaches(GraphOf(Along(q)), q[i], y)
    ensures i <= k < |q| && q[k] == y
  {
    var g := GraphOf(Along(q));
    var ahead := set k | i <= k < |q| :: q[k];
    forall x, z | x in ahead && z in Succ(g, x) ensures z in ahead {
      var k :| i <= k < |q| && q[k] == x;
      var e :| 0 <= e < |Along(q)| && Along(q)[e] == Edge(x, z);
      assert e == k;
    }
    ReachesStaysInClosed(g, ahead, q[i], y);
    k :| i <= k < |q| && q[k] == y;
  }

  function Allowed(a: Action): Action {
    a.(enabled := true)
  }

  function Permissive(n: Node): Node {
    n.(actions := seq(|n.actions|, i requires 0 <= i < |n.actions| => Allowed(n.actions[i])), contrast := None)
  }

  /** A migration of `b` that keeps all it must and leaves only the walk along `q`. */
  function Narrowed(b: Run, q: seq<NodeId>): Run {
    Run(seq(|b.nodes|, i requires 0 <= i < |b.nodes| => Permissive(b.nodes[i])), Along(q), b.announcements)
  }

  lemma PermissiveActions(n: Node)
    ensures forall a :: a in n.actions ==> Allowed(a) in Permissive(n).actions
    ensures forall a' :: a' in Permissive(n).actions ==> exists a :: a in n.actions && a' == Allowed(a)
  {
    forall a | a in n.actions ensures Allowed(a) in Permissive(n).actions {
      var i :| 0 <= i < |n.actions| && n.actions[i] == a;
      assert Permissive(n).actions[i] == Allowed(a);
    }
  }

  lemma NarrowedNodes(b: Run, q: seq<NodeId>)
    ensures forall n :: n in b.nodes ==> Permissive(n) in Narrowed(b, q).nodes
    ensures forall n' :: n' in Narrowed(b, q).nodes ==> exists n :: n in b.nodes && n' == Permissive(n)
  {
    hide Permissive;
    forall n | n in b.nodes ensures Permissive(n) in Narrowed(b, q).nodes {
      var i :| 0 <= i < |b.nodes| && b.nodes[i] == n;
      assert Narrowed(b, q).nodes[i] == Permissive(n);
    }
  }

  lemma NarrowedUnique(b: Run, q: seq<NodeId>)
    requires UniqueIds(b)
    ensures UniqueIds(Narrowed(b, q))
  {
    NarrowedNodes(b, q);
    var c := Narrowed(b, q);
    forall n', m' | n' in c.nodes && m' in c.nodes && n'.nodeId == m'.nodeId ensures n' == m' {
      var n :| n in b.nodes && n' == Permissive(n);
      var m :| m in b.nodes && m' == Permissive(m);
    }
    forall n' | n' in c.nodes ensures UniqueActions(n') {
      var n :| n in b.nodes && n' == Permissive(n);
      PermissiveActions(n);
      assert UniqueActions(n);
    }
  }

  /** Where the maps of the narrowed run keep what was allowed. */
  lemma PermissiveFound(b: Run, q: seq<NodeId>, n: Node)
    requires UniqueIds(b) && n in b.nodes
    ensures var c := Narrowed(b, q);
            && n.nodeId in NodeMap(c.nodes) && NodeMap(c.nodes)[n.nodeId] == Permissive(n)
            && AllAllowed(n, Actions(ActionMap(b.nodes), ActionMap(c.nodes)))
  {
    var c := Narrowed(b, q);
    NarrowedUnique(b, q);
    NarrowedNodes(b, q);
    PermissiveActions(n);
    assert Permissive(n).nodeId == n.nodeId;
    hide NodeMap, ActionMap, Narrowed, Permissive, UniqueIds, ActionIds;
    UniqueNodesFound(c);
    UniqueActionsFound(b, n);
    UniqueActionsFound(c, Permissive(n));
    var m := Actions(ActionMap(b.nodes), ActionMap(c.nodes));
    forall a | a in n.actions ensures AllowedIn(n, a, m) {
      assert Allowed(a) in Permissive(n).actions && Allowed(a).actionId == a.actionId;
    }
  }

  ghost predicate AllowedIn(n: Node, a: Action, m: Actions) {
    var k := (n.nodeId, a.actionId);
    k in m.source && k in m.translated && m.source[k] == a && m.translated[k] == Allowed(a)
  }

  ghost predicate AllAllowed(n: Node, m: Actions) {
    forall a :: a in n.actions ==> AllowedIn(n, a, m)
  }

  lemma PermissiveNodePreserved(n: Node, m: Actions, config: Config)
    requires AllAllowed(n, m)
    ensures NodePreserved(n, Permissive(n), m, config)
  {
    forall a | a in n.actions ensures !ActionLost((n.nodeId, a.actionId), m) {
      assert AllowedIn(n, a, m);
    }
  }

  lemma PermissivePreserves(b: Run, q: seq<NodeId>, n: Node, config: Config)
    requires UniqueIds(b) && n in b.nodes
    ensures var c := Narrowed(b, q);
            n.nodeId in NodeMap(c.nodes) &&
            NodePreserved(n, NodeMap(c.nodes)[n.nodeId], Actions(ActionMap(b.nodes), ActionMap(c.nodes)), config)
  {
    hide NodeMap, ActionMap, Narrowed, NodePreserved, Permissive, UniqueIds, AllAllowed;
    PermissiveFound(b, q, n);
    PermissiveNodePreserved(n, Actions(ActionMap(b.nodes), ActionMap(Narrowed(b, q).nodes)), config);
  }

  lemma TargetsInOrder(b: Run)
    requires UniqueIds(b)
    ensures var q := FocusOrderOf(NodeMap(b.nodes));
            NoDuplicates(q) && forall id :: id in q <==> TargetIn(b.nodes, id)
  {
    UniqueNodesFound(b);
    var q := FocusOrderOf(NodeMap(b.nodes));
    assert forall id :: id in q <==> id in FocusTargets(NodeMap(b.nodes));
  }

  lemma NarrowedTargets(b: Run, q: seq<NodeId>)
    ensures forall id :: TargetIn(Narrowed(b, q).nodes, id) <==> TargetIn(b.nodes, id)
  {
    NarrowedNodes(b, q);
    assert forall n: Node :: Permissive(n).nodeId == n.nodeId && (Permissive(n).FocusTarget() <==> n.FocusTarget());
    hide Narrowed, Permissive;
    var c := Narrowed(b, q);
    forall id | TargetIn(b.nodes, id) ensures TargetIn(c.nodes, id) {
      var n :| n in b.nodes && n.FocusTarget() && n.nodeId == id;
      assert Permissive(n) in c.nodes;
    }
    forall id | TargetIn(c.nodes, id) ensures TargetIn(b.nodes, id) {
      var n' :| n' in c.nodes && n'.FocusTarget() && n'.nodeId == id;
      var n :| n in b.nodes && n' == Permissive(n);
    }
  }

  lemma NarrowedKeepsTraversal(b: Run, config: Config)
    requires UniqueIds(b)
    ensures var q := FocusOrderOf(NodeMap(b.nodes)); FocusKept(q, Narrowed(b, q), config)
  {
    var q := FocusOrderOf(NodeMap(b.nodes));
    var c := Narrowed(b, q);
    assert c.focusTransitions == Along(q);
    TargetsInOrder(b);
    NarrowedTargets(b, q);
    hide FocusOrderOf, NodeMap, Narrowed, UniqueIds, Along;
    forall i | 0 < i < |q| ensures Reaches(GraphOf(Along(q)), q[i - 1], q[i]) {
      AlongReachesForward(q, i - 1, i);
    }
    forall n' | n' in c.nodes && n'.FocusTarget() ensures n'.nodeId in q {
      assert TargetIn(c.nodes, n'.nodeId);
    }
  }

  lemma NarrowedPreserves(b: Run, config: Config)
    requires UniqueIds(b)
    ensures Preserves(b, Narrowed(b, FocusOrderOf(NodeMap(b.nodes))), config)
  {
    var q := FocusOrderOf(NodeMap(b.nodes));
    var x := SidesOf(b, Narrowed(b, q));
    NarrowedKeepsTraversal(b, config);
    hide ActionMap, AnnouncementMap, FocusOrderOf, FocusKept, NodePreserved;
    forall id | id in x.source ensures PreservedAt(x, config, id) {
      PermissivePreserves(b, q, x.source[id], config);
    }
  }

  /** If the order survives the first migration, every second one that keeps its own traversal keeps this one. */
  lemma OrderSurvivesSuffices(a: Run, b: Run, c: Run, config: Config)
    requires UniqueIds(b) && config.requireFocusReachability
    requires Preserves(a, b, config) && Preserves(b, c, config)
    requires OrderSurvives(FocusOrderOf(NodeMap(a.nodes)), FocusOrderOf(NodeMap(b.nodes)))
    ensures Preserves(a, c, config)
  {
    var p, q, g := FocusOrderOf(NodeMap(a.nodes)), FocusOrderOf(NodeMap(b.nodes)), GraphOf(c.focusTransitions);
    PreservationComposes(a, b, c, config);
    TargetsInOrder(b);
    assert FocusKept(p, b, config) && FocusKept(q, c, config);
    hide FocusOrderOf, NodeMap, Preserves;
    TraversalFollows(p, q, c, g);
  }

  lemma TraversalFollows(p: seq<NodeId>, q: seq<NodeId>, c: Run, g: Graph)
    requires g == GraphOf(c.focusTransitions) && OrderSurvives(p, q)
    requires (forall id :: id in p ==> id in q) && OrderKept(q, c.nodes, g) && NewTargetsReachable(q, c.nodes, g)
    ensures OrderKept(p, c.nodes, g) && NewTargetsReachable(p, c.nodes, g)
  {
    forall i | 0 < i < |p| ensures Reaches(g, p[i - 1], p[i]) {
      assert StandsBefore(q, p[i - 1], p[i]);
      var j, k :| 0 <= j < k < |q| && q[j] == p[i - 1] && q[k] == p[i];
      OrderKeptReachesForward(q, c.nodes, g, j, k);
    }
    forall n | n in c.nodes && n.FocusTarget() && n.nodeId !in p ensures exists s :: s in p && Reaches(g, s, n.nodeId) {
      if n.nodeId in q {
        var k :| 0 <= k < |q| && q[k] == n.nodeId;
        OrderKeptReachesForward(q, c.nodes, g, 0, k);
      } else {
        var s :| s in q && Reaches(g, s, n.nodeId);
        var k :| 0 <= k < |q| && q[k] == s;
        OrderKeptReachesForward(q, c.nodes, g, 0, k);
        ReachesTransitive(g, q[0], s, n.nodeId);
      }
      assert q[0] in p;
    }
  }

  /** If it does not survive, a second migration exists that keeps all it must and loses the traversal. */
  lemma OrderSurvivesIsNeeded(a: Run, b: Run, config: Config)
    requires UniqueIds(b) && config.requireFocusReachability && Preserves(a, b, config)
    requires var q := FocusOrderOf(NodeMap(b.nodes)); Preserves(a, Narrowed(b, q), config)
    ensures OrderSurvives(FocusOrderOf(NodeMap(a.nodes)), FocusOrderOf(NodeMap(b.nodes)))
  {
    var p, q := FocusOrderOf(NodeMap(a.nodes)), FocusOrderOf(NodeMap(b.nodes));
    TargetsInOrder(b);
    NarrowedKeepsTraversal(b, config);
    assert FocusKept(p, b, config) && FocusKept(p, Narrowed(b, q), config) && NoDuplicates(p);
    hide FocusOrderOf, NodeMap, Preserves;
    WalkAlongKeepsOrder(p, q, Narrowed(b, q));
  }

  lemma WalkAlongKeepsOrder(p: seq<NodeId>, q: seq<NodeId>, c: Run)
    requires NoDuplicates(p) && NoDuplicates(q) && c.focusTransitions == Along(q) && forall id :: id in p ==> id in q
    requires OrderKept(p, c.nodes, GraphOf(Along(q))) && NewTargetsReachable(p, c.nodes, GraphOf(Along(q)))
    requires forall id :: id in q ==> TargetIn(c.nodes, id)
    ensures OrderSurvives(p, q)
  {
    forall i | 0 < i < |p| ensures StandsBefore(q, p[i - 1], p[i]) {
      assert p[i - 1] in p;
      var j :| 0 <= j < |q| && q[j] == p[i - 1];
      var k := AlongReachesOnlyForward(q, j, p[i]);
    }
    if q != [] && q[0] !in p {
      assert TargetIn(c.nodes, q[0]);
      var n :| n in c.nodes && n.FocusTarget() && n.nodeId == q[0];
      var s :| s in p && Reaches(GraphOf(Along(q)), s, q[0]);
      var j :| 0 <= j < |q| && q[j] == s;
      var k := AlongReachesOnlyForward(q, j, q[0]);
      assert false;
    }
  }

  /** Whatever the second migration is, as long as it violates nothing itself, the pair violates nothing. */
  ghost predicate SafeToContinue(a: Run, b: Run, config: Config) {
    forall c :: Preserves(b, c, config) ==> Preserves(a, c, config)
  }

  /** The exact condition, which needs only the two declared orders: reachability is not required at all, or the
      neighbours of the first traversal stand in the same order in the second and nothing was put ahead of it. */
  lemma SafeToContinueIff(a: Run, b: Run, config: Config)
    requires UniqueIds(b) && Preserves(a, b, config)
    ensures SafeToContinue(a, b, config) <==>
              (config.requireFocusReachability ==>
                 OrderSurvives(FocusOrderOf(NodeMap(a.nodes)), FocusOrderOf(NodeMap(b.nodes))))
  {
    hide Preserves, OrderSurvives, UniqueIds, NodeMap, FocusOrderOf, Narrowed;
    if SafeToContinue(a, b, config) && config.requireFocusReachability {
      NarrowedPreserves(b, config);
      OrderSurvivesIsNeeded(a, b, config);
    }
    if config.requireFocusReachability ==> OrderSurvives(FocusOrderOf(NodeMap(a.nodes)), FocusOrderOf(NodeMap(b.nodes))) {
      forall c | Preserves(b, c, config) ensures Preserves(a, c, config) {
        if config.requireFocusReachability {
          OrderSurvivesSuffices(a, b, c, config);
        } else {
          PreservationComposes(a, b, c, config);
        }
      }
    }
  }
}
