/** What the verdict of an accessibility comparison means: comparing a run with itself, and walking the source
    traversal in the translation. */
module AccessibilityLaws {
  import opened Graphs
  import opened Accessibility
  import opened FocusGraph
  import opened NodeComparison
  import opened AccessibilityDiff

  /** An id names one node, and within a node one action. */
  ghost predicate UniqueIds(run: Run) {
    && (forall n, n' :: n in run.nodes && n' in run.nodes && n.nodeId == n'.nodeId ==> n == n')
    && forall n :: n in run.nodes ==> UniqueActions(n)
  }

  ghost predicate UniqueActions(n: Node) {
    forall a, b :: a in n.actions && b in n.actions && a.actionId == b.actionId ==> a == b
  }

  lemma UniqueNodesFound(run: Run)
    requires UniqueIds(run)
    ensures forall n :: n in run.nodes ==> n.nodeId in NodeMap(run.nodes) && NodeMap(run.nodes)[n.nodeId] == n
  {
  }

  lemma UniqueActionsFound(run: Run, n: Node)
    requires UniqueIds(run) && n in run.nodes
    ensures forall a :: a in n.actions ==> (n.nodeId, a.actionId) in ActionMap(run.nodes)
    ensures forall a :: a in n.actions ==> ActionMap(run.nodes)[(n.nodeId, a.actionId)] == a
    ensures forall k :: k in ActionMap(run.nodes) && k.0 == n.nodeId ==> k.1 in ActionIds(n) && ActionMap(run.nodes)[k] in n.actions
  {
    hide NodeMap;
    var m := ActionMap(run.nodes);
    forall k | k in m && k.0 == n.nodeId ensures k.1 in ActionIds(n) && m[k] in n.actions {
      var owner :| owner in run.nodes && owner.nodeId == k.0 && m[k] in owner.actions;
      assert owner == n;
    }
    forall a | a in n.actions ensures (n.nodeId, a.actionId) in m && m[(n.nodeId, a.actionId)] == a {
      var k := (n.nodeId, a.actionId);
      assert k in m && k.0 == n.nodeId;
      assert UniqueActions(n) && m[k] in n.actions && m[k].actionId == a.actionId;
    }
  }

  // ----- a run against itself -----

  ghost predicate AllEnabled(n: Node) {
    forall a :: a in n.actions ==> a.enabled
  }

  ghost predicate NodesHoldUp(run: Run, config: Config) {
    forall n :: n in run.nodes ==> AllEnabled(n) && !ContrastTooLow(n, n, config)
  }

  /** Each focus target leads to the next one. */
  ghost predicate TraversalConnected(run: Run) {
    var order := FocusOrderOf(NodeMap(run.nodes));
    forall i :: 0 < i < |order| ==> Reaches(GraphOf(run.focusTransitions), order[i - 1], order[i])
  }

  /** With a delta of zero or less, every sufficient contrast counts as improved. */
  ghost predicate ContrastSettled(run: Run, config: Config) {
    config.improvementDelta > 0.0
    || forall n :: n in run.nodes && n.contrast.Some? ==> n.contrast.value < config.minimumContrast
  }

  lemma NodeAgainstItself(run: Run, n: Node, config: Config)
    requires UniqueIds(run) && n in run.nodes
    ensures var m := Actions(ActionMap(run.nodes), ActionMap(run.nodes));
            && (NodePreserved(n, n, m, config) <==> AllEnabled(n) && !ContrastTooLow(n, n, config))
            && (NodeNotImproved(n, n, m, config) <==> !ContrastImproved(n, n, config))
  {
    UniqueActionsFound(run, n);
    hide ActionMap, NodeMap, ActionIds;
    var m := Actions(ActionMap(run.nodes), ActionMap(run.nodes));
    forall a | a in n.actions ensures ActionLost((n.nodeId, a.actionId), m) <==> !a.enabled {
      assert m.source[(n.nodeId, a.actionId)] == a;
    }
  }

  lemma FocusAgainstItself(run: Run, config: Config)
    requires UniqueIds(run)
    ensures FocusKept(FocusOrderOf(NodeMap(run.nodes)), run, config) <==>
              (config.requireFocusReachability ==> TraversalConnected(run))
  {
    UniqueNodesFound(run);
    var nodes := NodeMap(run.nodes);
    var order := FocusOrderOf(nodes);
    assert forall id :: id in order <==> id in FocusTargets(nodes);
    forall id | id in order ensures TargetIn(run.nodes, id) {
      assert nodes[id] in run.nodes && nodes[id].nodeId == id && nodes[id].FocusTarget();
    }
    forall n | n in run.nodes && n.FocusTarget() ensures n.nodeId in order {
      assert n.nodeId in FocusTargets(nodes);
    }
  }

  /** Comparing a run with itself yields Equivalent exactly under conditions that can be read off the run. */
  lemma SelfComparison(run: Run, config: Config)
    requires UniqueIds(run)
    ensures VerdictOf(run, run, config) ==
            if !NodesHoldUp(run, config) || (config.requireFocusReachability && !TraversalConnected(run)) then Violation
            else if ContrastSettled(run, config) then Equivalent
            else Improved
  {
    hide ActionMap, TraversalConnected, NodePreserved, NodeNotImproved, FocusKept, AnnouncementMap, ContrastImproved, ContrastTooLow;
    var x := SidesOf(run, run);
    UniqueNodesFound(run);
    FocusAgainstItself(run, config);
    forall id | id in x.source
      ensures x.source[id] in run.nodes
      ensures PreservedAt(x, config, id) <==> AllEnabled(x.source[id]) && !ContrastTooLow(x.source[id], x.source[id], config)
      ensures NotImprovedAt(x, config, id) <==> !ContrastImproved(x.source[id], x.source[id], config)
    {
      NodeAgainstItself(run, x.source[id], config);
    }
    assert NodesHoldUp(run, config) <==> forall id :: id in x.source ==> PreservedAt(x, config, id) by {
      assert forall n :: n in run.nodes ==> n.nodeId in x.source && x.source[n.nodeId] == n;
    }
    assert ContrastSettled(run, config) <==> forall id :: id in x.source ==> NotImprovedAt(x, config, id) by {
      ContrastSettledMeans(run, config);
      assert forall n :: n in run.nodes ==> n.nodeId in x.source && x.source[n.nodeId] == n;
    }
  }

  lemma ContrastSettledMeans(run: Run, config: Config)
    ensures ContrastSettled(run, config) <==> forall n :: n in run.nodes ==> !ContrastImproved(n, n, config)
  {
  }

  /** A disabled action of the source makes even the run itself a violation. */
  lemma DisabledActionNeverEquivalent(run: Run, n: Node, a: Action, config: Config)
    requires UniqueIds(run) && n in run.nodes && a in n.actions && !a.enabled
    ensures VerdictOf(run, run, config) == Violation
  {
    hide VerdictOf;
    SelfComparison(run, config);
    assert !AllEnabled(n);
  }

  // ----- what a user can rely on -----

  /** Unless the verdict is Violation, the whole source traversal can still be walked in the translation. */
  lemma NoViolationKeepsTraversal(source: Run, translated: Run, config: Config, i: nat, j: nat)
    requires config.requireFocusReachability && VerdictOf(source, translated, config) != Violation
    requires i < j < |FocusOrderOf(NodeMap(source.nodes))|
    ensures var order, g := FocusOrderOf(NodeMap(source.nodes)), GraphOf(translated.focusTransitions);
            && Reaches(g, order[i], order[j])
            && TargetIn(translated.nodes, order[i]) && TargetIn(translated.nodes, order[j])
            && NewTargetsReachable(order, translated.nodes, g)
  {
    hide NodeMap, FocusOrderOf, PreservedAt;
    FocusKeptGuarantees(FocusOrderOf(NodeMap(source.nodes)), translated, config);
  }
}
