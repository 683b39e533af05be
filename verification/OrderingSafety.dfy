/** The ordering check: a three-colour depth-first search over the constraint graph that either
    certifies the part of the graph the effects can reach or returns a cycle in it. */
module OrderingSafety {
  import opened Graphs
  import opened EffectModel
  import opened Options

  /** White nodes are the ones the colour map does not mention. */
  datatype Color = Gray | Black

  type Coloring = map<NodeId, Color>

  /** Every successor of a finished node was finished before it. */
  ghost predicate FinishOrder(g: Graph, finish: seq<NodeId>) {
    && NoDuplicates(finish)
    && forall i :: 0 <= i < |finish| ==> forall y :: y in Succ(g, finish[i]) ==> y in finish[..i]
  }

  /** What the search keeps: the gray nodes are exactly the current path, the black ones exactly the
      finished ones, and the path is a walk. */
  ghost predicate SearchState(g: Graph, color: Coloring, path: seq<NodeId>, finish: seq<NodeId>) {
    && NoDuplicates(path)
    && (path != [] ==> IsWalk(g, path))
    && (forall x :: x in path <==> x in color && color[x] == Gray)
    && (forall x :: x in finish <==> x in color && color[x] == Black)
    && FinishOrder(g, finish)
  }

  ghost predicate SimpleCycle(g: Graph, c: seq<NodeId>) {
    IsCycle(g, c) && NoDuplicates(c)
  }

  /** `path.iter().position(..).unwrap()`: the element looked for is always there. */
  function Position(path: seq<NodeId>, x: NodeId): (k: nat)
    requires x in path
    ensures k < |path| && path[k] == x && x !in path[..k]
  {
    if path[0] == x then 0 else 1 + Position(path[1..], x)
  }

  lemma EnterKeepsState(g: Graph, color: Coloring, path: seq<NodeId>, finish: seq<NodeId>, node: NodeId)
    requires SearchState(g, color, path, finish) && node !in color
    requires path != [] ==> node in Succ(g, path[|path| - 1])
    ensures SearchState(g, color[node := Gray], path + [node], finish)
  {
    assert node !in path && node !in finish;
  }

  lemma LeaveKeepsState(g: Graph, color: Coloring, path: seq<NodeId>, finish: seq<NodeId>, node: NodeId)
    requires SearchState(g, color, path + [node], finish)
    requires forall y :: y in Succ(g, node) ==> y in finish
    ensures SearchState(g, color[node := Black], path, finish + [node])
  {
    var full := path + [node];
    assert full[|path|] == node && node in full && node !in finish;
    forall i | 0 < i < |path| ensures path[i] in Succ(g, path[i - 1]) {
      assert full[i] in Succ(g, full[i - 1]);
    }
    forall x | x in path ensures x in full && x != node {
      var i :| 0 <= i < |path| && path[i] == x;
      assert full[i] == x;
    }
    forall x | x in full && x != node ensures x in path {
      var i :| 0 <= i < |full| && full[i] == x;
      assert path[i] == x;
    }
    forall i, j | 0 <= i < j < |path| ensures path[i] != path[j] {
      assert full[i] != full[j];
    }
    FinishOneMore(g, finish, node);
    forall x ensures x in finish + [node] <==> x in finish || x == node {
    }
  }

  lemma FinishOneMore(g: Graph, finish: seq<NodeId>, node: NodeId)
    requires FinishOrder(g, finish) && node !in finish
    requires forall y :: y in Succ(g, node) ==> y in finish
    ensures FinishOrder(g, finish + [node])
  {
    var longer := finish + [node];
    forall i, y | 0 <= i < |longer| && y in Succ(g, longer[i]) ensures y in longer[..i] {
      assert longer[..i] == finish[..i];
    }
  }

  lemma BackEdgeClosesCycle(g: Graph, path: seq<NodeId>, next: NodeId)
    requires path != [] && IsWalk(g, path) && NoDuplicates(path)
    requires next in path && next in Succ(g, path[|path| - 1])
    ensures SimpleCycle(g, path[Position(path, next)..])
  {
    var k := Position(path, next);
    var c := path[k..];
    forall i | 0 < i < |c| ensures c[i] in Succ(g, c[i - 1]) {
      assert path[k + i] in Succ(g, path[k + i - 1]);
    }
  }

  method Dfs(node: NodeId, g: Graph, color0: Coloring, path0: seq<NodeId>,
             ghost finish0: seq<NodeId>, ghost universe: set<NodeId>)
    returns (color: Coloring, path: seq<NodeId>, cycle: Option<seq<NodeId>>, ghost finish: seq<NodeId>)
    requires SearchState(g, color0, path0, finish0)
    requires node !in color0 && node in universe && Closed(g, universe) && color0.Keys <= universe
    requires path0 != [] ==> node in Succ(g, path0[|path0| - 1])
    ensures cycle.None? ==>
              && SearchState(g, color, path, finish)
              && path == path0 && finish0 <= finish && node in finish
              && color0.Keys <= color.Keys <= universe
    ensures cycle.Some? ==>
              && IsWalk(g, path) && path0 + [node] <= path
              && SimpleCycle(g, cycle.value)
              && exists k :: 0 <= k < |path| && cycle.value == path[k..]
    decreases universe - color0.Keys
  {
    color := color0[node := Gray];
    path := path0 + [node];
    finish := finish0;
    cycle := None;
    EnterKeepsState(g, color0, path0, finish0, node);
    var todo := Succ(g, node);
    while todo != {}
      invariant todo <= Succ(g, node) && cycle.None?
      invariant SearchState(g, color, path, finish)
      invariant path == path0 + [node] && finish0 <= finish
      invariant color0.Keys + {node} <= color.Keys <= universe
      invariant forall y :: y in Succ(g, node) - todo ==> y in finish
    {
      var next :| next in todo;
      todo := todo - {next};
      if next in color && color[next] == Gray {
        var start := Position(path, next);
        BackEdgeClosesCycle(g, path, next);
        cycle := Some(path[start..]);
        return;
      }
      if next !in color {
        color, path, cycle, finish := Dfs(next, g, color, path, finish, universe);
        if cycle.Some? {
          return;
        }
      }
    }
    LeaveKeepsState(g, color, path0, finish, node);
    path := path[..|path| - 1];
    color := color[node := Black];
    finish := finish + [node];
    assert path == path0;
  }

  /** A finished region has no cycle: going along an edge moves towards the front of the order. */
  lemma {:induction false} WalkDescends(g: Graph, finish: seq<NodeId>, c: seq<NodeId>, i: nat) returns (j: nat)
    requires FinishOrder(g, finish) && IsWalk(g, c) && c[0] in finish && i < |c|
    ensures j < |finish| && finish[j] == c[i] && j + i <= Position(finish, c[0])
  {
    if i == 0 {
      j := Position(finish, c[0]);
    } else {
      var k := WalkDescends(g, finish, c, i - 1);
      assert c[i] in Succ(g, finish[k]);
      j :| 0 <= j < k && finish[j] == c[i];
    }
  }

  lemma FinishedHasNoCycle(g: Graph, finish: seq<NodeId>, c: seq<NodeId>)
    requires FinishOrder(g, finish) && c != [] && c[0] in finish
    ensures !IsCycle(g, c)
  {
    if IsCycle(g, c) {
      var j := WalkDescends(g, finish, c, |c| - 1);
      assert false;
    }
  }

  lemma FinishedIsClosed(g: Graph, finish: seq<NodeId>)
    requires FinishOrder(g, finish)
    ensures Closed(g, set x | x in finish)
  {
    forall x, y | x in finish && y in Succ(g, x) ensures y in finish {
      var i :| 0 <= i < |finish| && finish[i] == x;
      assert y in finish[..i];
    }
  }

  /** The constraints have no cycle that some effect leads into. */
  ghost predicate NoReachableCycle(g: Graph, effects: set<NodeId>) {
    forall e, c :: e in effects && IsCycle(g, c) ==> !Reaches(g, e, c[0])
  }

  /** A schedule lists nodes so that every constraint between listed nodes points forward, and lists
      whatever must come after a listed node. */
  ghost predicate IsSchedule(constraints: seq<Edge>, effects: set<NodeId>, schedule: seq<NodeId>) {
    && NoDuplicates(schedule)
    && (forall e :: e in effects ==> e in schedule)
    && forall i, a :: 0 <= i < |schedule| && Edge(schedule[i], a) in constraints ==> a in schedule[i + 1..]
  }

  function Reversed<T>(s: seq<T>): (r: seq<T>)
    ensures |r| == |s| && forall i :: 0 <= i < |s| ==> r[i] == s[|s| - 1 - i]
  {
    if s == [] then [] else Reversed(s[1..]) + [s[0]]
  }

  lemma ReverseFinishIsSchedule(constraints: seq<Edge>, effects: set<NodeId>, finish: seq<NodeId>)
    requires FinishOrder(GraphOf(constraints), finish)
    requires forall e :: e in effects ==> e in finish
    ensures IsSchedule(constraints, effects, Reversed(finish))
  {
    var s := Reversed(finish);
    forall e | e in effects ensures e in s {
      var k :| 0 <= k < |finish| && finish[k] == e;
      assert s[|s| - 1 - k] == e;
    }
    forall i, a | 0 <= i < |s| && Edge(s[i], a) in constraints ensures a in s[i + 1..] {
      var k := |s| - 1 - i;
      assert a in Succ(GraphOf(constraints), finish[k]);
      var j :| 0 <= j < k && finish[j] == a;
      assert s[|s| - 1 - j] == a;
    }
  }

  lemma FinishedCoversEffects(g: Graph, finish: seq<NodeId>, effects: set<NodeId>)
    requires FinishOrder(g, finish) && forall e :: e in effects ==> e in finish
    ensures NoReachableCycle(g, effects)
  {
    FinishedIsClosed(g, finish);
    forall e, c | e in effects && IsCycle(g, c) ensures !Reaches(g, e, c[0]) {
      if Reaches(g, e, c[0]) {
        ReachesStaysInClosed(g, (set x | x in finish), e, c[0]);
        FinishedHasNoCycle(g, finish, c);
        assert false;
      }
    }
  }

  /** Conversely a schedule leaves no room for a cycle behind an effect. */
  lemma ScheduleForbidsCycles(constraints: seq<Edge>, effects: set<NodeId>, schedule: seq<NodeId>)
    requires IsSchedule(constraints, effects, schedule)
    ensures NoReachableCycle(GraphOf(constraints), effects)
  {
    var g := GraphOf(constraints);
    var finish := Reversed(schedule);
    var n := |schedule|;
    forall i, y | 0 <= i < n && y in Succ(g, finish[i]) ensures y in finish[..i] {
      assert y in schedule[n - i..];
      var k :| n - i <= k < n && schedule[k] == y;
      assert finish[n - 1 - k] == y;
    }
    forall e | e in effects ensures e in finish {
      var k :| 0 <= k < n && schedule[k] == e;
      assert finish[n - 1 - k] == e;
    }
    FinishedCoversEffects(g, finish, effects);
  }

  /** The loop over all effects: the first cycle found ends it. */
  method SearchEffects(g: Graph, effects: set<NodeId>)
    returns (cyclePath: seq<NodeId>, ghost finish: seq<NodeId>)
    ensures cyclePath == [] ==> FinishOrder(g, finish) && forall e :: e in effects ==> e in finish
    ensures cyclePath != [] ==>
              SimpleCycle(g, cyclePath) && exists e :: e in effects && Reaches(g, e, cyclePath[0])
  {
    var color: Coloring := map[];
    ghost var universe := Vertices(g) + effects;
    cyclePath, finish := [], [];
    var todo := effects;
    VerticesClosed(g, effects);
    while todo != {}
      invariant todo <= effects && color.Keys <= universe && cyclePath == []
      invariant SearchState(g, color, [], finish)
      invariant forall e :: e in effects - todo ==> e in finish
    {
      var id :| id in todo;
      todo := todo - {id};
      if id !in color {
        var path, cycle;
        color, path, cycle, finish := Dfs(id, g, color, [], finish, universe);
        if cycle.Some? {
          cyclePath := cycle.value;
          var k :| 0 <= k < |path| && cyclePath == path[k..];
          assert path[0] == id;
          WalkReaches(g, path, 0, k);
          return;
        }
      }
    }
  }

  method CheckOrderingSafety(m: Model) returns (r: CheckResult, ghost schedule: seq<NodeId>)
    ensures r.status == if NoReachableCycle(GraphOf(m.constraints), m.effects.Keys) then Proven else Refuted
    ensures ObligationsFor(r.obligations, EffectOrderingSafety, m.effects.Keys)
    ensures r.status == Proven ==>
              r.counterexamples == [] && IsSchedule(m.constraints, m.effects.Keys, schedule)
    ensures r.status == Refuted ==>
              && |r.counterexamples| == 1 && r.counterexamples[0].property == EffectOrderingSafety
              && SimpleCycle(GraphOf(m.constraints), r.counterexamples[0].witnessPath)
              && (exists e :: e in m.effects && Reaches(GraphOf(m.constraints), e, r.counterexamples[0].witnessPath[0]))
              && forall s :: !IsSchedule(m.constraints, m.effects.Keys, s)
  {
    var g := BuildGraph(m.constraints);
    var obligations := ObligationPerSubject(EffectOrderingSafety, m.effects.Keys);
    ghost var finish;
    var cyclePath;
    cyclePath, finish := SearchEffects(g, m.effects.Keys);
    if cyclePath == [] {
      r := CheckResult(Proven, obligations, []);
      schedule := Reversed(finish);
      ReverseFinishIsSchedule(m.constraints, m.effects.Keys, finish);
      FinishedCoversEffects(g, finish, m.effects.Keys);
    } else {
      r := CheckResult(Refuted, obligations, [Counterexample(EffectOrderingSafety, cyclePath)]);
      schedule := [];
      forall s | IsSchedule(m.constraints, m.effects.Keys, s) ensures false {
        ScheduleForbidsCycles(m.constraints, m.effects.Keys, s);
      }
    }
  }

  /** When every constraint starts at an effect the check decides acyclicity of the whole graph. */
  lemma EndpointsAreEffectsMakesItExact(m: Model)
    requires forall c :: c in m.constraints ==> c.from in m.effects
    ensures NoReachableCycle(GraphOf(m.constraints), m.effects.Keys) <==> Acyclic(GraphOf(m.constraints))
  {
    var g := GraphOf(m.constraints);
    forall c | IsCycle(g, c) ensures c[0] in m.effects && Reaches(g, c[0], c[0]) {
      ReachesSelf(g, c[0]);
      var y := if |c| == 1 then c[0] else c[1];
      assert y in Succ(g, c[0]);
    }
  }

  /** Otherwise it does not: a cycle among ids that are no effects is reported Proven. */
  lemma CycleOutsideEffectsIsMissed(m: Model, a: NodeId, b: NodeId)
    requires m.constraints == [Edge(a, b), Edge(b, a)] && a !in m.effects && b !in m.effects
    ensures NoReachableCycle(GraphOf(m.constraints), m.effects.Keys) && !Acyclic(GraphOf(m.constraints))
  {
    var g := GraphOf(m.constraints);
    assert m.constraints[0] == Edge(a, b) && m.constraints[1] == Edge(b, a);
    assert IsCycle(g, [a, b]);
    assert Closed(g, m.effects.Keys);
    forall e, c | e in m.effects && IsCycle(g, c) ensures !Reaches(g, e, c[0]) {
      if Reaches(g, e, c[0]) {
        ReachesStaysInClosed(g, m.effects.Keys, e, c[0]);
        assert false;
      }
    }
  }

  /** Whatever the constraints that start among `ids`, the check decides acyclicity of the whole graph exactly when
      all of `ids` are effects. */
  lemma ExactIffStartsAreEffects(ids: set<NodeId>, effects: map<NodeId, Effect>)
    ensures (forall constraints :: StartAmong(constraints, ids) ==> DecidesAcyclicity(constraints, effects.Keys))
       <==> ids <= effects.Keys
  {
    if ids <= effects.Keys {
      forall constraints | StartAmong(constraints, ids) ensures DecidesAcyclicity(constraints, effects.Keys) {
        EndpointsAreEffectsMakesItExact(Model(effects, {}, constraints));
      }
    } else {
      var a :| a in ids && a !in effects.Keys;
      var constraints := [Edge(a, a), Edge(a, a)];
      CycleOutsideEffectsIsMissed(Model(effects, {}, constraints), a, a);
      assert StartAmong(constraints, ids) && !DecidesAcyclicity(constraints, effects.Keys);
    }
  }

  ghost predicate StartAmong(constraints: seq<Edge>, ids: set<NodeId>) {
    forall c :: c in constraints ==> c.from in ids
  }

  ghost predicate DecidesAcyclicity(constraints: seq<Edge>, effects: set<NodeId>) {
    NoReachableCycle(GraphOf(constraints), effects) <==> Acyclic(GraphOf(constraints))
  }
}
