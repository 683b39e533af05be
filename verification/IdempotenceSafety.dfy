/** The idempotence check: a worklist closure over "depends on", one idempotent effect at a time,
    under an iteration budget. */
module IdempotenceSafety {
  import opened Graphs
  import opened EffectModel

  /** Ordering constraints read backwards: an effect depends on what must complete before it. */
  function Backwards(constraints: seq<Edge>): (r: seq<Edge>)
    ensures |r| == |constraints|
    ensures forall i :: 0 <= i < |r| ==> r[i] == Edge(constraints[i].to, constraints[i].from)
  {
    seq(|constraints|, i requires 0 <= i < |constraints| => Edge(constraints[i].to, constraints[i].from))
  }

  ghost function DependsOn(m: Model): Graph {
    GraphOf(Backwards(m.constraints))
  }

  /** `x` is a transitive predecessor of `id` that breaks its idempotence. */
  ghost predicate Violates(m: Model, id: NodeId, x: NodeId) {
    x != id && Reaches(DependsOn(m), id, x) && x in m.effects && !m.effects[x].idempotent
  }

  ghost predicate IdempotentEffect(m: Model, id: NodeId) {
    id in m.effects && m.effects[id].idempotent
  }

  /** How many times the worklist for `id` is popped when nothing stops it: once for `id`, and once
      for every dependency edge that leaves a node it reaches. */
  ghost function Work(m: Model, id: NodeId): nat {
    1 + |EdgesFrom(DependsOn(m), ReachSet(DependsOn(m), id))|
  }

  /** The stack and the visited set of one closure, `pops` iterations in. */
  ghost predicate ClosureState(g: Graph, id: NodeId, visited: set<NodeId>, stack: seq<NodeId>, pops: nat) {
    && (id in visited || id in stack)
    && (forall x :: x in visited || x in stack ==> Reaches(g, id, x))
    && (forall x, y :: x in visited && y in Succ(g, x) ==> y in visited || y in stack)
    && pops + |stack| == 1 + |EdgesFrom(g, visited)|
  }

  lemma VisitedWithinReach(g: Graph, id: NodeId, visited: set<NodeId>, stack: seq<NodeId>, pops: nat)
    requires ClosureState(g, id, visited, stack, pops)
    ensures pops + |stack| <= 1 + |EdgesFrom(g, ReachSet(g, id))|
    ensures stack == [] ==> visited == ReachSet(g, id)
  {
    ReachSetExact(g, id);
    EdgesFromMonotone(g, visited, ReachSet(g, id));
    if stack == [] {
      ClosedReachableIsReachSet(g, id, visited);
    }
  }

  /** One pop of a node already visited. */
  lemma SkipKeepsState(g: Graph, id: NodeId, visited: set<NodeId>, stack: seq<NodeId>, pops: nat)
    requires ClosureState(g, id, visited, stack, pops) && stack != [] && stack[|stack| - 1] in visited
    ensures ClosureState(g, id, visited, stack[..|stack| - 1], pops + 1)
  {
    var rest, top := stack[..|stack| - 1], stack[|stack| - 1];
    forall x | x in stack && x != top ensures x in rest {
      var i :| 0 <= i < |stack| && stack[i] == x;
      assert rest[i] == x;
    }
  }

  /** One pop of a new node, whose dependencies are pushed. */
  lemma VisitKeepsState(g: Graph, id: NodeId, visited: set<NodeId>, stack: seq<NodeId>, pops: nat, deps: seq<NodeId>)
    requires ClosureState(g, id, visited, stack, pops) && stack != [] && stack[|stack| - 1] !in visited
    requires |deps| == |Succ(g, stack[|stack| - 1])| && forall y :: y in deps <==> y in Succ(g, stack[|stack| - 1])
    ensures ClosureState(g, id, visited + {stack[|stack| - 1]}, stack[..|stack| - 1] + deps, pops + 1)
  {
    var rest, top := stack[..|stack| - 1], stack[|stack| - 1];
    var stack' := rest + deps;
    EdgesFromGrows(g, visited, top);
    forall x | x in stack && x != top ensures x in rest {
      var i :| 0 <= i < |stack| && stack[i] == x;
      assert rest[i] == x;
    }
    forall y | y in deps ensures Reaches(g, id, y) {
      ReachesStep(g, id, top, y);
    }
    assert forall x :: x in stack' <==> x in rest || x in deps;
  }

  /** The inner `for dep in deps { queue.push(dep) }`. */
  method PushAll(stack0: seq<NodeId>, deps: set<NodeId>) returns (stack: seq<NodeId>, ghost pushed: seq<NodeId>)
    ensures stack == stack0 + pushed && |pushed| == |deps|
    ensures forall y :: y in pushed <==> y in deps
  {
    stack, pushed := stack0, [];
    var todo := deps;
    while todo != {}
      invariant todo <= deps && stack == stack0 + pushed
      invariant |pushed| + |todo| == |deps|
      invariant forall y :: y in pushed <==> y in deps - todo
    {
      var dep :| dep in todo;
      todo := todo - {dep};
      stack, pushed := stack + [dep], pushed + [dep];
    }
  }

  /** The closure of one idempotent effect. `found` lists the offending predecessors met, each once;
      it is all of them unless the budget ran out, and the budget runs out exactly when it is below
      the work there is to do. */
  method CloseOver(m: Model, g: Graph, id: NodeId, maxIterations: nat)
    returns (exhausted: bool, found: seq<NodeId>)
    requires g == DependsOn(m) && IdempotentEffect(m, id)
    ensures exhausted <==> Work(m, id) > maxIterations
    ensures NoDuplicates(found) && forall x :: x in found ==> Violates(m, id, x)
    ensures !exhausted ==> forall x :: Violates(m, id, x) ==> x in found
  {
    var visited: set<NodeId>, stack, iterations := {}, [id], 0;
    found := [];
    ReachesSelf(g, id);
    assert EdgesFrom(g, {}) == {};
    while stack != []
      invariant ClosureState(g, id, visited, stack, iterations) && iterations <= maxIterations
      invariant NoDuplicates(found)
      invariant forall x :: x in found <==> x in visited && Violates(m, id, x)
      decreases 1 + maxIterations - iterations
    {
      VisitedWithinReach(g, id, visited, stack, iterations);
      var current := stack[|stack| - 1];
      if iterations >= maxIterations {
        return true, found;
      }
      if current in visited {
        SkipKeepsState(g, id, visited, stack, iterations);
        stack := stack[..|stack| - 1];
      } else {
        if current != id && current in m.effects && !m.effects[current].idempotent {
          found := found + [current];
        }
        var stack', pushed := PushAll(stack[..|stack| - 1], Succ(g, current));
        VisitKeepsState(g, id, visited, stack, iterations, pushed);
        visited, stack := visited + {current}, stack';
      }
      iterations := iterations + 1;
    }
    VisitedWithinReach(g, id, visited, stack, iterations);
    ReachSetExact(g, id);
    exhausted := false;
  }

  function Pairs(id: NodeId, found: seq<NodeId>): (r: seq<Counterexample>)
    ensures |r| == |found|
    ensures forall i :: 0 <= i < |r| ==> r[i] == Counterexample(IdempotencePreservation, [id, found[i]])
  {
    seq(|found|, i requires 0 <= i < |found| => Counterexample(IdempotencePreservation, [id, found[i]]))
  }

  /** `c` witnesses that an idempotent effect in `ids` depends on a non-idempotent one. */
  ghost predicate Witnesses(m: Model, ids: set<NodeId>, c: Counterexample) {
    && c.property == IdempotencePreservation && |c.witnessPath| == 2 && c.witnessPath[0] in ids
    && IdempotentEffect(m, c.witnessPath[0]) && Violates(m, c.witnessPath[0], c.witnessPath[1])
  }

  ghost predicate BudgetSuffices(m: Model, maxIterations: nat) {
    forall id :: IdempotentEffect(m, id) ==> Work(m, id) <= maxIterations
  }

  ghost predicate IdempotencePreserved(m: Model) {
    forall id, x :: IdempotentEffect(m, id) ==> !Violates(m, id, x)
  }

  method CheckIdempotencePreservation(m: Model, maxIterations: nat) returns (r: CheckResult)
    ensures r.status == if !BudgetSuffices(m, maxIterations) then Unknown
                        else if IdempotencePreserved(m) then Proven else Refuted
    ensures r.status == Proven ==> r.counterexamples == []
    ensures r.status == Refuted ==> r.counterexamples != []
    ensures NoDuplicates(r.counterexamples)
    ensures forall c :: c in r.counterexamples ==> Witnesses(m, m.effects.Keys, c)
    ensures ObligationsWithin(r.obligations, IdempotencePreservation, set id | id in m.effects && m.effects[id].idempotent)
    ensures r.status != Unknown ==>
              && (forall c :: Witnesses(m, m.effects.Keys, c) ==> c in r.counterexamples)
              && ObligationsFor(r.obligations, IdempotencePreservation, set id | id in m.effects && m.effects[id].idempotent)
  {
    var g := BuildGraph(Backwards(m.constraints));
    var obligations: seq<Obligation>, cexs: seq<Counterexample> := [], [];
    var todo := m.effects.Keys;
    while todo != {}
      invariant todo <= m.effects.Keys
      invariant ObligationsFor(obligations, IdempotencePreservation,
                               set id | id in m.effects.Keys - todo && m.effects[id].idempotent)
      invariant NoDuplicates(cexs)
      invariant forall c :: c in cexs <==> Witnesses(m, m.effects.Keys - todo, c)
      invariant forall id :: id in m.effects.Keys - todo && m.effects[id].idempotent ==> Work(m, id) <= maxIterations
    {
      var id :| id in todo;
      var done := m.effects.Keys - todo;
      todo := todo - {id};
      if m.effects[id].idempotent {
        obligations := obligations + [Obligation(IdempotencePreservation, id)];
        var exhausted, found := CloseOver(m, g, id, maxIterations);
        AppendPairs(m, cexs, done, id, found);
        cexs := cexs + Pairs(id, found);
        if exhausted {
          return CheckResult(Unknown, obligations, cexs);
        }
      }
    }
    assert m.effects.Keys - todo == m.effects.Keys;
    if cexs == [] {
      r := CheckResult(Proven, obligations, cexs);
      forall id, x | IdempotentEffect(m, id) ensures !Violates(m, id, x) {
        assert !Witnesses(m, m.effects.Keys, Counterexample(IdempotencePreservation, [id, x]));
      }
    } else {
      r := CheckResult(Refuted, obligations, cexs);
      assert cexs[0] in cexs;
    }
  }

  lemma AppendPairs(m: Model, cexs: seq<Counterexample>, ids: set<NodeId>, id: NodeId, found: seq<NodeId>)
    requires id !in ids && IdempotentEffect(m, id)
    requires NoDuplicates(cexs) && forall c :: c in cexs <==> Witnesses(m, ids, c)
    requires NoDuplicates(found) && forall x :: x in found ==> Violates(m, id, x)
    ensures NoDuplicates(cexs + Pairs(id, found))
    ensures forall c :: c in cexs + Pairs(id, found) ==> Witnesses(m, ids + {id}, c)
    ensures (forall x :: Violates(m, id, x) ==> x in found) ==>
              forall c :: Witnesses(m, ids + {id}, c) ==> c in cexs + Pairs(id, found)
  {
    var more := Pairs(id, found);
    forall c | c in more ensures Witnesses(m, ids + {id}, c) && c !in cexs {
      var i :| 0 <= i < |more| && more[i] == c;
      assert found[i] in found;
    }
    forall i, j | 0 <= i < j < |more| ensures more[i] != more[j] {
      assert more[i].witnessPath[1] == found[i] && more[j].witnessPath[1] == found[j];
    }
    forall i, j | 0 <= i < j < |cexs + more| ensures (cexs + more)[i] != (cexs + more)[j] {
      if i < |cexs| <= j {
        assert cexs[i] in cexs && more[j - |cexs|] in more;
      }
    }
    if forall x :: Violates(m, id, x) ==> x in found {
      forall c | Witnesses(m, ids + {id}, c) ensures c in cexs + more {
        if c.witnessPath[0] == id {
          var i :| 0 <= i < |found| && found[i] == c.witnessPath[1];
          assert more[i] == c by {
            assert c.witnessPath == [id, found[i]];
          }
        } else {
          assert Witnesses(m, ids, c);
        }
      }
    }
  }

  /** A budget of one more than the number of distinct constraints is never exceeded. */
  lemma OnePerConstraintSuffices(m: Model, maxIterations: nat)
    requires maxIterations >= 1 + |set c | c in m.constraints|
    ensures BudgetSuffices(m, maxIterations)
  {
    var g := DependsOn(m);
    var distinct := set c | c in m.constraints;
    forall id | IdempotentEffect(m, id) ensures Work(m, id) <= maxIterations {
      var edges := EdgesFrom(g, ReachSet(g, id));
      var flipped := set e | e in edges :: Edge(e.to, e.from);
      forall e | e in edges ensures Edge(e.to, e.from) in distinct {
        var i :| 0 <= i < |m.constraints| && Backwards(m.constraints)[i] == e;
        assert m.constraints[i] == Edge(e.to, e.from);
      }
      FlipCardinality(edges);
      SubsetCardinality(flipped, distinct);
    }
  }

  lemma {:induction false} FlipCardinality(edges: set<Edge>)
    ensures |set e | e in edges :: Edge(e.to, e.from)| == |edges|
  {
    if edges != {} {
      var x :| x in edges;
      FlipCardinality(edges - {x});
      assert (set e | e in edges :: Edge(e.to, e.from))
          == (set e | e in edges - {x} :: Edge(e.to, e.from)) + {Edge(x.to, x.from)};
    }
  }

  // ----- the property in the direction of the constraints -----

  lemma {:induction false} WalkTurned(constraints: seq<Edge>, p: seq<NodeId>)
    requires IsWalk(GraphOf(Backwards(constraints)), p)
    ensures Reaches(GraphOf(constraints), p[|p| - 1], p[0])
  {
    var g := GraphOf(constraints);
    ReachesSelf(g, p[0]);
    if |p| > 1 {
      WalkTurned(constraints, p[1..]);
      assert p[1] in Succ(GraphOf(Backwards(constraints)), p[0]);
      assert Edge(p[0], p[1]) in Backwards(constraints);
      var i :| 0 <= i < |constraints| && Backwards(constraints)[i] == Edge(p[0], p[1]);
      assert constraints[i] == Edge(p[1], p[0]);
      ReachesStep(g, p[|p| - 1], p[1], p[0]);
    }
  }

  lemma TwiceBackwards(constraints: seq<Edge>)
    ensures Backwards(Backwards(constraints)) == constraints
  {
  }

  /** An idempotent effect violates the rule through another effect from which the ordering constraints lead to it. */
  lemma ViolatesMeans(m: Model, id: NodeId, x: NodeId)
    ensures Violates(m, id, x) <==>
              x != id && Reaches(GraphOf(m.constraints), x, id) && x in m.effects && !m.effects[x].idempotent
  {
    hide IsWalk, GraphOf, Backwards;
    if Reaches(DependsOn(m), id, x) {
      var p :| WalkBetween(DependsOn(m), p, id, x);
      WalkTurned(m.constraints, p);
    }
    if Reaches(GraphOf(m.constraints), x, id) {
      TwiceBackwards(m.constraints);
      var p :| WalkBetween(GraphOf(m.constraints), p, x, id);
      WalkTurned(Backwards(m.constraints), p);
    }
  }
}
