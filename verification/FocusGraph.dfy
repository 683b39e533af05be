/** Focus traversal: breadth-first reachability, the source order, and the check that the translated focus
    graph still lets the user walk through it. */
module FocusGraph {
  import opened Graphs
  import opened Accessibility
  import opened Sorting
  import opened Options

  /** The queue and the visited set of one search that has not met its target. */
  ghost predicate Searching(g: Graph, from: NodeId, to: NodeId, visited: set<NodeId>, queue: seq<NodeId>) {
    && (from in visited || from in queue)
    && to !in visited && to !in queue
    && (forall x :: x in visited || x in queue ==> Reaches(g, from, x))
    && forall x, y :: x in visited && y in Succ(g, x) ==> y in visited || y in queue
  }

  /** A breadth-first search with an early exit decides reachability on any graph, cyclic or not. */
  method Reachable(g: Graph, from: NodeId, to: NodeId) returns (found: bool)
    ensures found <==> Reaches(g, from, to)
  {
    ReachesSelf(g, from);
    if from == to {
      return true;
    }
    var visited: set<NodeId>, queue := {}, [from];
    ghost var universe := Vertices(g) + {from};
    VerticesClosed(g, {from});
    while queue != []
      invariant Searching(g, from, to, visited, queue)
      invariant visited <= universe && forall x :: x in queue ==> x in universe
      decreases universe - visited, |queue|
    {
      var current := queue[0];
      assert forall x :: x in queue <==> x == current || x in queue[1..];
      queue := queue[1..];
      if current !in visited {
        var hit;
        hit, queue := Expand(g, from, to, current, visited, queue);
        if hit {
          return true;
        }
        visited := visited + {current};
      }
    }
    if Reaches(g, from, to) {
      ReachesStaysInClosed(g, visited, from, to);
      assert false;
    }
    found := false;
  }

  /** The inner loop: stops at the target, otherwise enqueues every successor. */
  method Expand(g: Graph, from: NodeId, to: NodeId, current: NodeId, visited: set<NodeId>, queue0: seq<NodeId>)
    returns (hit: bool, queue: seq<NodeId>)
    requires Reaches(g, from, current) && to !in queue0
    ensures hit ==> Reaches(g, from, to)
    ensures !hit ==>
              && to !in queue && (forall x :: x in queue <==> x in queue0 || x in Succ(g, current))
              && forall y :: y in Succ(g, current) ==> Reaches(g, from, y)
  {
    queue := queue0;
    var todo := Succ(g, current);
    while todo != {}
      invariant todo <= Succ(g, current) && to !in queue
      invariant forall x :: x in queue <==> x in queue0 || x in Succ(g, current) - todo
      invariant forall y :: y in Succ(g, current) - todo ==> Reaches(g, from, y)
    {
      var next :| next in todo;
      todo := todo - {next};
      ReachesStep(g, from, current, next);
      if next == to {
        return true, queue;
      }
      queue := queue + [next];
    }
    hit := false;
  }

  method ReachableFromAnySource(g: Graph, sources: set<NodeId>, target: NodeId) returns (found: bool)
    ensures found <==> exists s :: s in sources && Reaches(g, s, target)
  {
    var todo := sources;
    while todo != {}
      invariant todo <= sources
      invariant forall s :: s in sources - todo ==> !Reaches(g, s, target)
    {
      var s :| s in todo;
      todo := todo - {s};
      found := Reachable(g, s, target);
      if found {
        return;
      }
    }
    found := false;
  }

  // ----- the source order -----

  const LAST: nat := 0xFFFF_FFFF

  function OrderKey(nodes: map<NodeId, Node>, id: NodeId): nat {
    if id in nodes && nodes[id].focusOrder.Some? then nodes[id].focusOrder.value else LAST
  }

  /** By declared order, then by id. */
  function Before(nodes: map<NodeId, Node>): (NodeId, NodeId) -> bool {
    (a: NodeId, b: NodeId) =>
      OrderKey(nodes, a) < OrderKey(nodes, b) || (OrderKey(nodes, a) == OrderKey(nodes, b) && Leq(a, b))
  }

  lemma BeforeIsTotal(nodes: map<NodeId, Node>)
    ensures TotalPreorder(Before(nodes))
  {
    forall a, b ensures Before(nodes)(a, b) || Before(nodes)(b, a) {
      LeqTotal(a, b);
    }
    forall a, b, c | Before(nodes)(a, b) && Before(nodes)(b, c) ensures Before(nodes)(a, c) {
      if Leq(a, b) && Leq(b, c) {
        LeqTransitive(a, b, c);
      }
    }
  }

  function FocusTargets(nodes: map<NodeId, Node>): set<NodeId> {
    set id | id in nodes && nodes[id].FocusTarget()
  }

  ghost predicate IsFocusOrder(nodes: map<NodeId, Node>, order: seq<NodeId>) {
    Lists(order, FocusTargets(nodes)) && SortedBy(Before(nodes), order)
  }

  /** Sorting leaves no choice: whatever order the map is iterated in, the result is the same. */
  lemma FocusOrderUnique(nodes: map<NodeId, Node>, a: seq<NodeId>, b: seq<NodeId>)
    requires IsFocusOrder(nodes, a) && IsFocusOrder(nodes, b)
    ensures a == b
  {
    BeforeIsTotal(nodes);
    forall x, y | Before(nodes)(x, y) && Before(nodes)(y, x) ensures x == y {
      LeqAntisymmetric(x, y);
    }
    hide Before;
    NoDuplicatesByMultiset(a);
    NoDuplicatesByMultiset(b);
    forall x ensures multiset(a)[x] == multiset(b)[x] {
      assert x in a <==> x in multiset(a);
      assert x in b <==> x in multiset(b);
    }
    assert multiset(a) == multiset(b);
    SortedUnique(Before(nodes), a, b);
  }

  ghost function FocusOrderOf(nodes: map<NodeId, Node>): (order: seq<NodeId>)
    ensures IsFocusOrder(nodes, order)
  {
    BeforeIsTotal(nodes);
    SortKeepsElements(Before(nodes), ListOf(FocusTargets(nodes)));
    Sort(Before(nodes), ListOf(FocusTargets(nodes)))
  }

  /** The order in terms of the declared numbers: a target that declares less than 0xFFFF_FFFF has before it only targets
      that declare no more. Declaring nothing is declaring 0xFFFF_FFFF, and ids decide among equals. */
  lemma FocusOrderMeans(nodes: map<NodeId, Node>, i: nat, j: nat)
    requires i < j < |FocusOrderOf(nodes)|
    ensures var a, b := FocusOrderOf(nodes)[i], FocusOrderOf(nodes)[j];
            a != b && a in nodes && b in nodes && InTurn(nodes[a].focusOrder, a, nodes[b].focusOrder, b)
  {
    var order := FocusOrderOf(nodes);
    var a, b := order[i], order[j];
    assert a in FocusTargets(nodes) && b in FocusTargets(nodes) by {
      assert a in order && b in order;
    }
    assert Before(nodes)(a, b);
    assert OrderKey(nodes, a) <= OrderKey(nodes, b) && (OrderKey(nodes, a) == OrderKey(nodes, b) ==> Leq(a, b));
    assert OrderKey(nodes, a) == match nodes[a].focusOrder { case Some(x) => x case None => 0xFFFF_FFFF };
    assert OrderKey(nodes, b) == match nodes[b].focusOrder { case Some(y) => y case None => 0xFFFF_FFFF };
  }

  /** `a`, which declares `u`, may come before `b`, which declares `v`. */
  predicate InTurn(u: Option<U32>, a: NodeId, v: Option<U32>, b: NodeId) {
    match (u, v)
    case (Some(x), Some(y)) => x < y || (x == y && Leq(a, b))
    case (Some(x), None) => x < 0xFFFF_FFFF || Leq(a, b)
    case (None, Some(y)) => y == 0xFFFF_FFFF && Leq(a, b)
    case (None, None) => Leq(a, b)
  }

  /** Filter, collect, sort. */
  method FocusOrder(nodes: map<NodeId, Node>) returns (order: seq<NodeId>)
    ensures IsFocusOrder(nodes, order) && order == FocusOrderOf(nodes)
  {
    var found: seq<NodeId> := [];
    var todo := nodes.Keys;
    while todo != {}
      invariant todo <= nodes.Keys
      invariant Lists(found, FocusTargets(nodes) - todo)
    {
      var id :| id in todo;
      if nodes[id].FocusTarget() {
        ListsOneMore(found, FocusTargets(nodes) - todo, id);
        found := found + [id];
        assert FocusTargets(nodes) - (todo - {id}) == FocusTargets(nodes) - todo + {id};
      } else {
        assert FocusTargets(nodes) - (todo - {id}) == FocusTargets(nodes) - todo;
      }
      todo := todo - {id};
    }
    assert FocusTargets(nodes) - todo == FocusTargets(nodes);
    BeforeIsTotal(nodes);
    SortKeepsElements(Before(nodes), found);
    order := Sort(Before(nodes), found);
    FocusOrderUnique(nodes, order, FocusOrderOf(nodes));
  }

  // ----- the comparison -----

  datatype FocusResult = FocusResult(faults: seq<Fault>, successes: nat, covered: set<string>)

  function Unreachable(id: NodeId): Fault {
    Fault(UnreachableFocusNode, Some(id), FOCUS_POLICY, Critical)
  }

  function NoTransition(from: NodeId): Fault {
    Fault(MissingFocusTransition, Some(from), FOCUS_POLICY, Critical)
  }

  ghost predicate TargetIn(nodes: seq<Node>, id: NodeId) {
    exists n :: n in nodes && n.FocusTarget() && n.nodeId == id
  }

  /** Every source target is still one, and each step of the source order can still be walked. */
  ghost predicate OrderKept(order: seq<NodeId>, nodes: seq<Node>, g: Graph) {
    && (forall id :: id in order ==> TargetIn(nodes, id))
    && forall i :: 0 < i < |order| ==> Reaches(g, order[i - 1], order[i])
  }

  /** Every target that is new can be reached from a source target. */
  ghost predicate NewTargetsReachable(order: seq<NodeId>, nodes: seq<Node>, g: Graph) {
    forall n :: n in nodes && n.FocusTarget() && n.nodeId !in order ==>
      exists s :: s in order && Reaches(g, s, n.nodeId)
  }

  ghost predicate FocusKept(order: seq<NodeId>, translated: Run, config: Config) {
    config.requireFocusReachability ==>
      && OrderKept(order, translated.nodes, GraphOf(translated.focusTransitions))
      && NewTargetsReachable(order, translated.nodes, GraphOf(translated.focusTransitions))
  }

  ghost predicate LostTarget(order: seq<NodeId>, nodes: seq<Node>, f: Fault) {
    exists id :: id in order && !TargetIn(nodes, id) && f == Unreachable(id)
  }

  ghost predicate BrokenStep(order: seq<NodeId>, g: Graph, f: Fault) {
    exists i :: 0 < i < |order| && !Reaches(g, order[i - 1], order[i]) && f == NoTransition(order[i - 1])
  }

  ghost predicate StrandedBy(order: seq<NodeId>, g: Graph, n: Node) {
    n.FocusTarget() && n.nodeId !in order && forall s :: s in order ==> !Reaches(g, s, n.nodeId)
  }

  ghost predicate StrandedTarget(order: seq<NodeId>, nodes: seq<Node>, g: Graph, f: Fault) {
    exists n :: n in nodes && StrandedBy(order, g, n) && f == Unreachable(n.nodeId)
  }

  /** What a focus fault can be about. */
  ghost predicate FocusFault(order: seq<NodeId>, translated: Run, config: Config, f: Fault) {
    config.requireFocusReachability &&
    (LostTarget(order, translated.nodes, f)
     || BrokenStep(order, GraphOf(translated.focusTransitions), f)
     || StrandedTarget(order, translated.nodes, GraphOf(translated.focusTransitions), f))
  }

  lemma NoFaultIffKept(order: seq<NodeId>, translated: Run, config: Config)
    ensures (forall f :: !FocusFault(order, translated, config, f)) <==> FocusKept(order, translated, config)
  {
    var g := GraphOf(translated.focusTransitions);
    if config.requireFocusReachability {
      if FocusKept(order, translated, config) {
        forall f ensures !FocusFault(order, translated, config, f) {
        }
      } else if id :| id in order && !TargetIn(translated.nodes, id) {
        assert LostTarget(order, translated.nodes, Unreachable(id));
        assert FocusFault(order, translated, config, Unreachable(id));
      } else if i :| 0 < i < |order| && !Reaches(g, order[i - 1], order[i]) {
        assert BrokenStep(order, g, NoTransition(order[i - 1]));
        assert FocusFault(order, translated, config, NoTransition(order[i - 1]));
      } else {
        assert OrderKept(order, translated.nodes, g);
        var n :| n in translated.nodes && n.FocusTarget() && n.nodeId !in order && !exists s :: s in order && Reaches(g, s, n.nodeId);
        assert StrandedBy(order, g, n);
        assert StrandedTarget(order, translated.nodes, g, Unreachable(n.nodeId));
        assert FocusFault(order, translated, config, Unreachable(n.nodeId));
      }
    }
  }

  lemma LostTargetGrows(order: seq<NodeId>, id: NodeId, nodes: seq<Node>)
    ensures forall f :: LostTarget(order + [id], nodes, f) <==>
                          LostTarget(order, nodes, f) || (!TargetIn(nodes, id) && f == Unreachable(id))
  {
    assert forall x :: x in order + [id] <==> x in order || x == id;
    forall f ensures LostTarget(order + [id], nodes, f) <==>
                       LostTarget(order, nodes, f) || (!TargetIn(nodes, id) && f == Unreachable(id))
    {
      if x :| x in order + [id] && !TargetIn(nodes, x) && f == Unreachable(x) {
        assert x in order || x == id;
      }
      if x :| x in order && !TargetIn(nodes, x) && f == Unreachable(x) {
        assert x in order + [id];
      }
      assert id in order + [id];
    }
  }

  lemma StrandedTargetGrows(order: seq<NodeId>, nodes: seq<Node>, n: Node, g: Graph)
    ensures forall f :: StrandedTarget(order, nodes + [n], g, f) <==>
                          StrandedTarget(order, nodes, g, f) || (StrandedBy(order, g, n) && f == Unreachable(n.nodeId))
  {
    forall f ensures StrandedTarget(order, nodes + [n], g, f) <==>
                       StrandedTarget(order, nodes, g, f) || (StrandedBy(order, g, n) && f == Unreachable(n.nodeId))
    {
      if x :| x in nodes + [n] && StrandedBy(order, g, x) && f == Unreachable(x.nodeId) {
        assert x in nodes || x == n;
      }
      if x :| x in nodes && StrandedBy(order, g, x) && f == Unreachable(x.nodeId) {
        assert x in nodes + [n];
      }
      assert n in nodes + [n];
    }
  }

  /** How many steps of the source order can be walked. */
  ghost function WalkableSteps(order: seq<NodeId>, g: Graph): nat {
    if |order| < 2 then 0
    else WalkableSteps(order[..|order| - 1], g) + if Reaches(g, order[|order| - 2], order[|order| - 1]) then 1 else 0
  }

  /** How many targets are new. */
  ghost function NewTargets(order: seq<NodeId>, nodes: seq<Node>): nat {
    if |nodes| == 0 then 0
    else
      var n := nodes[|nodes| - 1];
      NewTargets(order, nodes[..|nodes| - 1]) + if n.FocusTarget() && n.nodeId !in order then 1 else 0
  }

  /** How many source targets the translation has lost. */
  ghost function LostCount(order: seq<NodeId>, nodes: seq<Node>): nat {
    if |order| == 0 then 0
    else LostCount(order[..|order| - 1], nodes) + if TargetIn(nodes, order[|order| - 1]) then 0 else 1
  }

  ghost function StrandedCount(order: seq<NodeId>, nodes: seq<Node>, g: Graph): nat {
    if |nodes| == 0 then 0
    else StrandedCount(order, nodes[..|nodes| - 1], g) + if StrandedBy(order, g, nodes[|nodes| - 1]) then 1 else 0
  }

  lemma {:induction false} WalkableAtMostAll(order: seq<NodeId>, g: Graph)
    ensures order != [] ==> WalkableSteps(order, g) < |order|
  {
    if |order| >= 2 {
      WalkableAtMostAll(order[..|order| - 1], g);
    }
  }

  /** Lost targets, steps that cannot be walked, and new targets nothing leads to. */
  ghost function FocusFaultCount(order: seq<NodeId>, translated: Run, config: Config): nat {
    if !config.requireFocusReachability then 0
    else
      var g := GraphOf(translated.focusTransitions);
      WalkableAtMostAll(order, g);
      LostCount(order, translated.nodes) + StrandedCount(order, translated.nodes, g)
      + if order == [] then 0 else |order| - 1 - WalkableSteps(order, g)
  }

  ghost function FocusSuccesses(order: seq<NodeId>, translated: Run, config: Config): nat {
    if config.requireFocusReachability
    then WalkableSteps(order, GraphOf(translated.focusTransitions)) + NewTargets(order, translated.nodes)
    else 0
  }

  ghost predicate SomeStepWalkable(order: seq<NodeId>, g: Graph) {
    exists i :: 0 < i < |order| && Reaches(g, order[i - 1], order[i])
  }

  ghost predicate SomeTargetNew(order: seq<NodeId>, nodes: seq<Node>) {
    exists n :: n in nodes && n.FocusTarget() && n.nodeId !in order
  }

  /** The policies under which something about the traversal succeeded. */
  ghost function FocusCovered(order: seq<NodeId>, translated: Run, config: Config): set<string> {
    if !config.requireFocusReachability then {}
    else
      When(SomeStepWalkable(order, GraphOf(translated.focusTransitions)), FOCUS_POLICY)
      + When(SomeTargetNew(order, translated.nodes), IMPROVEMENT_POLICY)
  }

  lemma {:induction false} SomeStepWalkableIff(order: seq<NodeId>, g: Graph)
    ensures WalkableSteps(order, g) > 0 <==> SomeStepWalkable(order, g)
  {
    if |order| >= 2 {
      var before := order[..|order| - 1];
      SomeStepWalkableIff(before, g);
      if i :| 0 < i < |order| && Reaches(g, order[i - 1], order[i]) {
        assert i < |before| ==> before[i - 1] == order[i - 1] && before[i] == order[i];
      }
    }
  }

  lemma {:induction false} SomeTargetNewIff(order: seq<NodeId>, nodes: seq<Node>)
    ensures NewTargets(order, nodes) > 0 <==> SomeTargetNew(order, nodes)
  {
    if nodes != [] {
      var before, last := nodes[..|nodes| - 1], nodes[|nodes| - 1];
      assert nodes == before + [last];
      SomeTargetNewIff(order, before);
    }
  }

  method LostTargets(order: seq<NodeId>, nodes: seq<Node>) returns (faults: seq<Fault>)
    ensures forall f :: f in faults <==> LostTarget(order, nodes, f)
    ensures |faults| == LostCount(order, nodes)
  {
    var targets := set n | n in nodes && n.FocusTarget() :: n.nodeId;
    assert forall id :: id in targets <==> TargetIn(nodes, id);
    faults := [];
    for i := 0 to |order|
      invariant forall f :: f in faults <==> LostTarget(order[..i], nodes, f)
      invariant |faults| == LostCount(order[..i], nodes)
    {
      assert order[..i + 1] == order[..i] + [order[i]];
      LostTargetGrows(order[..i], order[i], nodes);
      if order[i] !in targets {
        faults := faults + [Unreachable(order[i])];
      }
    }
    assert order[..|order|] == order;
  }

  method BrokenSteps(order: seq<NodeId>, g: Graph) returns (faults: seq<Fault>, walked: nat)
    ensures forall f :: f in faults <==> BrokenStep(order, g, f)
    ensures walked == WalkableSteps(order, g) && |faults| + walked == if order == [] then 0 else |order| - 1
  {
    faults, walked := [], 0;
    var i := 1;
    while i < |order|
      invariant 1 <= i && (i <= |order| || (|order| == 0 && i == 1))
      invariant forall f :: f in faults <==>
                  exists j :: 0 < j < i && j < |order| && !Reaches(g, order[j - 1], order[j]) && f == NoTransition(order[j - 1])
      invariant i <= |order| ==> walked == WalkableSteps(order[..i], g)
      invariant |order| == 0 ==> walked == 0
      invariant |faults| + walked == i - 1
    {
      assert order[..i + 1][..i] == order[..i];
      var found := Reachable(g, order[i - 1], order[i]);
      if found {
        walked := walked + 1;
      } else {
        faults := faults + [NoTransition(order[i - 1])];
      }
      i := i + 1;
    }
    assert order[..|order|] == order;
  }

  method StrandedTargets(order: seq<NodeId>, nodes: seq<Node>, g: Graph) returns (faults: seq<Fault>, seen: nat)
    ensures forall f :: f in faults <==> StrandedTarget(order, nodes, g, f)
    ensures seen == NewTargets(order, nodes) && |faults| == StrandedCount(order, nodes, g)
  {
    var sources := set id | id in order;
    faults, seen := [], 0;
    for i := 0 to |nodes|
      invariant forall f :: f in faults <==> StrandedTarget(order, nodes[..i], g, f)
      invariant seen == NewTargets(order, nodes[..i]) && |faults| == StrandedCount(order, nodes[..i], g)
    {
      var n := nodes[i];
      assert nodes[..i + 1] == nodes[..i] + [n];
      StrandedTargetGrows(order, nodes[..i], n, g);
      if n.FocusTarget() && n.nodeId !in sources {
        seen := seen + 1;
        var reached := ReachableFromAnySource(g, sources, n.nodeId);
        if !reached {
          faults := faults + [Unreachable(n.nodeId)];
        }
      }
    }
    assert nodes[..|nodes|] == nodes;
  }

  /** The three loops of `compare_focus_graph`; counters saturate. */
  method CompareFocusGraph(translated: Run, order: seq<NodeId>, config: Config) returns (r: FocusResult)
    ensures forall f :: f in r.faults <==> FocusFault(order, translated, config, f)
    ensures |r.faults| == FocusFaultCount(order, translated, config)
    ensures r.faults == [] <==> FocusKept(order, translated, config)
    ensures r.successes == Capped(FocusSuccesses(order, translated, config))
    ensures r.covered == FocusCovered(order, translated, config)
  {
    hide FocusFault, FocusKept, FocusFaultCount, FocusCovered, FocusSuccesses, Reaches, GraphOf, When;
    if !config.requireFocusReachability {
      NothingRequired(order, translated, config);
      return FocusResult([], 0, {});
    }
    var g := BuildGraph(translated.focusTransitions);
    var lost := LostTargets(order, translated.nodes);
    var broken, walked := BrokenSteps(order, g);
    var stranded, seen := StrandedTargets(order, translated.nodes, g);
    r := FocusResult(lost + broken + stranded, SatAdd(Capped(walked), Capped(seen)),
                     When(walked > 0, FOCUS_POLICY) + When(seen > 0, IMPROVEMENT_POLICY));
    hide LostTarget, BrokenStep, StrandedTarget, LostCount, StrandedCount, WalkableSteps, NewTargets, SatAdd, Capped;
    FaultsGathered(order, translated, config, lost, broken, stranded);
    NumbersGathered(order, translated, config, |lost|, |broken|, walked, |stranded|, seen);
  }

  lemma NothingRequired(order: seq<NodeId>, translated: Run, config: Config)
    requires !config.requireFocusReachability
    ensures (forall f :: !FocusFault(order, translated, config, f)) && FocusKept(order, translated, config)
    ensures FocusFaultCount(order, translated, config) == FocusSuccesses(order, translated, config) == 0
    ensures FocusCovered(order, translated, config) == {} && Capped(0) == 0
  {
  }

  lemma FaultsGathered(order: seq<NodeId>, translated: Run, config: Config, lost: seq<Fault>, broken: seq<Fault>, stranded: seq<Fault>)
    requires config.requireFocusReachability
    requires forall f :: f in lost <==> LostTarget(order, translated.nodes, f)
    requires forall f :: f in broken <==> BrokenStep(order, GraphOf(translated.focusTransitions), f)
    requires forall f :: f in stranded <==> StrandedTarget(order, translated.nodes, GraphOf(translated.focusTransitions), f)
    ensures forall f :: f in lost + broken + stranded <==> FocusFault(order, translated, config, f)
    ensures lost + broken + stranded == [] <==> FocusKept(order, translated, config)
  {
    hide LostTarget, BrokenStep, StrandedTarget, GraphOf, FocusKept;
    var all := lost + broken + stranded;
    assert forall f :: f in all <==> f in lost || f in broken || f in stranded;
    assert all != [] ==> all[0] in all;
    NoFaultIffKept(order, translated, config);
  }

  lemma NumbersGathered(order: seq<NodeId>, translated: Run, config: Config, lost: nat, broken: nat, walked: nat, stranded: nat, seen: nat)
    requires config.requireFocusReachability
    requires lost == LostCount(order, translated.nodes) && stranded == StrandedCount(order, translated.nodes, GraphOf(translated.focusTransitions))
    requires walked == WalkableSteps(order, GraphOf(translated.focusTransitions)) && seen == NewTargets(order, translated.nodes)
    requires broken + walked == if order == [] then 0 else |order| - 1
    ensures lost + broken + stranded == FocusFaultCount(order, translated, config)
    ensures SatAdd(Capped(walked), Capped(seen)) == Capped(FocusSuccesses(order, translated, config))
    ensures When(walked > 0, FOCUS_POLICY) + When(seen > 0, IMPROVEMENT_POLICY) == FocusCovered(order, translated, config)
  {
    SomeStepWalkableIff(order, GraphOf(translated.focusTransitions));
    SomeTargetNewIff(order, translated.nodes);
    hide LostCount, StrandedCount, WalkableSteps, NewTargets, GraphOf, SomeStepWalkable, SomeTargetNew;
  }

  /** Checking neighbours is enough: in a kept order every earlier target reaches every later one. */
  lemma {:induction false} OrderKeptReachesForward(order: seq<NodeId>, nodes: seq<Node>, g: Graph, i: nat, j: nat)
    requires OrderKept(order, nodes, g) && i <= j < |order|
    ensures Reaches(g, order[i], order[j])
    decreases j - i
  {
    if i == j {
      ReachesSelf(g, order[i]);
    } else {
      OrderKeptReachesForward(order, nodes, g, i, j - 1);
      ReachesTransitive(g, order[i], order[j - 1], order[j]);
    }
  }

  /** What a comparison without focus faults guarantees. */
  lemma FocusKeptGuarantees(order: seq<NodeId>, translated: Run, config: Config)
    requires config.requireFocusReachability
    ensures FocusKept(order, translated, config) <==>
              var g := GraphOf(translated.focusTransitions);
              && (forall i, j :: 0 <= i < j < |order| ==> Reaches(g, order[i], order[j]))
              && (forall id :: id in order ==> TargetIn(translated.nodes, id))
              && NewTargetsReachable(order, translated.nodes, g)
  {
    var g := GraphOf(translated.focusTransitions);
    if FocusKept(order, translated, config) {
      forall i, j | 0 <= i < j < |order| ensures Reaches(g, order[i], order[j]) {
        OrderKeptReachesForward(order, translated.nodes, g, i, j);
      }
    }
  }
}
