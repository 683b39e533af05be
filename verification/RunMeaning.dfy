/** What a comparison says about the lists of the two runs: no maps, every fault and every improvement spelled out. */
module RunMeaning {
  import opened Graphs
  import opened Sorting
  import opened Accessibility
  import opened FocusGraph
  import opened NodeComparison
  import opened AccessibilityDiff
  import opened AccessibilityLaws
  import opened SetSums
  import opened Options

  /** Ids name one node, one action of a node, one announcement. */
  ghost predicate WellNamed(run: Run) {
    && UniqueIds(run)
    && forall a, b :: a in run.announcements && b in run.announcements && a.announcementId == b.announcementId ==> a == b
  }

  ghost predicate HasAction(t: Node, actionId: string) {
    exists b :: b in t.actions && b.actionId == actionId
  }

  ghost predicate ActionSurvives(a: Action, t: Node) {
    exists b :: b in t.actions && b.actionId == a.actionId && b.enabled && b.kind == a.kind
  }

  ghost predicate NodeSurvives(s: Node, t: Node, config: Config) {
    && s.role == t.role
    && (s.focusable ==> t.focusable)
    && (s.focusable && s.enabled ==> t.enabled)
    && (s.name.Some? ==> t.name.Some?)
    && (forall a :: a in s.actions ==> ActionSurvives(a, t))
    && (s.role != Presentation && t.contrast.Some? ==> t.contrast.value >= config.minimumContrast)
  }

  ghost predicate HasNode(run: Run, id: NodeId) {
    exists n :: n in run.nodes && n.nodeId == id
  }

  ghost predicate HasTarget(run: Run, id: NodeId) {
    exists n :: n in run.nodes && n.nodeId == id && n.focusable && n.enabled
  }

  ghost predicate HasAnnouncement(run: Run, id: string) {
    exists a :: a in run.announcements && a.announcementId == id
  }

  ghost predicate AnnouncementSurvives(a: Announcement, translated: Run) {
    exists b :: b in translated.announcements && b.announcementId == a.announcementId && b.text == a.text && b.politeness == a.politeness
  }

  /** The focus targets of a run, each once, in the order that the declared numbers and the ids give. */
  ghost predicate FocusSequence(run: Run, order: seq<NodeId>) {
    && NoDuplicates(order) && (forall id :: id in order <==> HasTarget(run, id))
    && forall i, j, a, b :: 0 <= i < j < |order| && a in run.nodes && b in run.nodes && a.nodeId == order[i] && b.nodeId == order[j] ==>
         InTurn(a.focusOrder, a.nodeId, b.focusOrder, b.nodeId)
  }

  /** Targets remain, each reaches all later ones, and new targets are reached from one of them. */
  ghost predicate TraversalSurvives(order: seq<NodeId>, translated: Run) {
    var g := GraphOf(translated.focusTransitions);
    && (forall id :: id in order ==> HasTarget(translated, id))
    && (forall i, j :: 0 <= i < j < |order| ==> Reaches(g, order[i], order[j]))
    && forall id :: HasTarget(translated, id) && id !in order ==> exists s :: s in order && Reaches(g, s, id)
  }

  ghost predicate NodesSurvive(source: seq<Node>, translated: seq<Node>, config: Config) {
    forall s :: s in source ==> exists t :: t in translated && t.nodeId == s.nodeId && NodeSurvives(s, t, config)
  }

  ghost predicate AnnouncementsSurvive(source: Run, translated: Run) {
    forall a :: a in source.announcements ==> AnnouncementSurvives(a, translated)
  }

  ghost predicate Survives(source: Run, translated: Run, config: Config) {
    && NodesSurvive(source.nodes, translated.nodes, config)
    && (config.requireFocusReachability ==> exists order :: FocusSequence(source, order) && TraversalSurvives(order, translated))
    && AnnouncementsSurvive(source, translated)
  }

  // ----- the maps -----

  lemma NodesFound(run: Run)
    requires UniqueIds(run)
    ensures forall n :: n in run.nodes ==> n.nodeId in NodeMap(run.nodes) && NodeMap(run.nodes)[n.nodeId] == n
    ensures forall id :: id in NodeMap(run.nodes) <==> HasNode(run, id)
  {
    UniqueNodesFound(run);
    hide NodeMap;
  }

  lemma AnnouncementsFound(run: Run)
    requires WellNamed(run)
    ensures var m := AnnouncementMap(run.announcements);
            && (forall a :: a in run.announcements ==> a.announcementId in m && m[a.announcementId] == a)
            && (forall id :: id in m ==> m[id] in run.announcements && m[id].announcementId == id)
            && forall id :: id in m <==> HasAnnouncement(run, id)
  {
    hide AnnouncementMap, UniqueIds;
  }

  /** An action of the source in the map of the translation. */
  lemma ActionFound(source: Run, translated: Run, s: Node, t: Node, a: Action)
    requires UniqueIds(source) && UniqueIds(translated) && s in source.nodes && t in translated.nodes && s.nodeId == t.nodeId && a in s.actions
    ensures var m, k := Actions(ActionMap(source.nodes), ActionMap(translated.nodes)), (s.nodeId, a.actionId);
            && k in m.source && m.source[k] == a
            && (k in m.translated <==> HasAction(t, a.actionId))
            && (k in m.translated ==> m.translated[k] in t.actions && m.translated[k].actionId == a.actionId)
            && forall b :: b in t.actions && b.actionId == a.actionId ==> k in m.translated && m.translated[k] == b
  {
    UniqueActionsFound(source, s);
    UniqueActionsFound(translated, t);
    hide ActionMap, UniqueIds;
    var m, k := ActionMap(translated.nodes), (s.nodeId, a.actionId);
    if k in m {
      assert k.0 == t.nodeId;
      assert m[k] in t.actions;
      assert m[k].actionId == k.1;
    }
  }

  lemma ActionLostIff(source: Run, translated: Run, s: Node, t: Node, a: Action)
    requires UniqueIds(source) && UniqueIds(translated) && s in source.nodes && t in translated.nodes && s.nodeId == t.nodeId && a in s.actions
    ensures var m := Actions(ActionMap(source.nodes), ActionMap(translated.nodes));
            && (ActionLost((s.nodeId, a.actionId), m) <==> !ActionSurvives(a, t))
            && (ActionKept((s.nodeId, a.actionId), m) <==> ActionSurvives(a, t))
  {
    ActionFound(source, translated, s, t, a);
    hide ActionMap, UniqueIds;
  }

  // ----- the verdict -----

  lemma NodePreservedIff(source: Run, translated: Run, s: Node, t: Node, config: Config)
    requires UniqueIds(source) && UniqueIds(translated) && s in source.nodes && t in translated.nodes && s.nodeId == t.nodeId
    ensures NodePreserved(s, t, Actions(ActionMap(source.nodes), ActionMap(translated.nodes)), config) <==> NodeSurvives(s, t, config)
  {
    hide ActionMap, UniqueIds, ActionSurvives, ActionLost;
    forall a | a in s.actions
      ensures ActionLost((s.nodeId, a.actionId), Actions(ActionMap(source.nodes), ActionMap(translated.nodes))) <==> !ActionSurvives(a, t)
    {
      ActionLostIff(source, translated, s, t, a);
    }
  }

  lemma FocusSequenceIff(run: Run, order: seq<NodeId>)
    requires UniqueIds(run)
    ensures FocusSequence(run, order) <==> order == FocusOrderOf(NodeMap(run.nodes))
  {
    var nodes := NodeMap(run.nodes);
    NodesFound(run);
    TargetsFound(run);
    hide NodeMap, UniqueIds, Before, InTurn, FocusOrderOf, FocusSequence, Lists;
    if order == FocusOrderOf(nodes) {
      OrderIsSequence(run, nodes);
    }
    if FocusSequence(run, order) {
      assert forall id :: HasTarget(run, id) ==> id in nodes && nodes[id] in run.nodes && nodes[id].nodeId == id;
      SequenceIsSorted(run, nodes, order);
      FocusOrderUnique(nodes, order, FocusOrderOf(nodes));
    }
  }

  lemma OrderIsSequence(run: Run, nodes: map<NodeId, Node>)
    requires forall n :: n in run.nodes ==> n.nodeId in nodes && nodes[n.nodeId] == n
    requires forall id :: id in FocusTargets(nodes) <==> HasTarget(run, id)
    ensures FocusSequence(run, FocusOrderOf(nodes))
  {
    var p := FocusOrderOf(nodes);
    hide Before, InTurn, HasTarget, FocusTargets, FocusOrderOf;
    forall i, j, a, b | 0 <= i < j < |p| && a in run.nodes && b in run.nodes && a.nodeId == p[i] && b.nodeId == p[j]
      ensures InTurn(a.focusOrder, a.nodeId, b.focusOrder, b.nodeId)
    {
      FocusOrderMeans(nodes, i, j);
    }
  }

  lemma SequenceIsSorted(run: Run, nodes: map<NodeId, Node>, order: seq<NodeId>)
    requires FocusSequence(run, order)
    requires forall id :: HasTarget(run, id) ==> id in nodes && nodes[id] in run.nodes && nodes[id].nodeId == id
    requires forall id :: id in FocusTargets(nodes) <==> HasTarget(run, id)
    ensures IsFocusOrder(nodes, order)
  {
    hide Before, InTurn, HasTarget, FocusTargets;
    forall i, j | 0 <= i < j < |order| ensures Before(nodes)(order[i], order[j]) {
      assert order[i] in order && order[j] in order;
      InTurnIsBefore(nodes, order[i], order[j]);
    }
  }

  lemma TargetsFound(run: Run)
    requires UniqueIds(run)
    ensures forall id :: id in FocusTargets(NodeMap(run.nodes)) <==> HasTarget(run, id)
    ensures forall id :: TargetIn(run.nodes, id) <==> HasTarget(run, id)
  {
    NodesFound(run);
    hide NodeMap, UniqueIds;
  }

  lemma InTurnIsBefore(nodes: map<NodeId, Node>, a: NodeId, b: NodeId)
    requires a in nodes && b in nodes && InTurn(nodes[a].focusOrder, a, nodes[b].focusOrder, b)
    ensures Before(nodes)(a, b)
  {
    hide Leq;
  }

  lemma TraversalIff(source: Run, translated: Run, config: Config)
    requires UniqueIds(source) && UniqueIds(translated)
    ensures FocusKept(FocusOrderOf(NodeMap(source.nodes)), translated, config) <==>
              (config.requireFocusReachability ==> exists order :: FocusSequence(source, order) && TraversalSurvives(order, translated))
  {
    var p := FocusOrderOf(NodeMap(source.nodes));
    FocusSequenceIff(source, p);
    TargetsFound(translated);
    hide NodeMap, UniqueIds, FocusOrderOf, FocusSequence, FocusKept, TraversalSurvives;
    if config.requireFocusReachability {
      KeptMeansSurvives(p, translated, config);
      forall order | FocusSequence(source, order) ensures order == p {
        FocusSequenceIff(source, order);
      }
    }
  }

  lemma KeptMeansSurvives(p: seq<NodeId>, translated: Run, config: Config)
    requires config.requireFocusReachability && forall id :: TargetIn(translated.nodes, id) <==> HasTarget(translated, id)
    ensures FocusKept(p, translated, config) <==> TraversalSurvives(p, translated)
  {
    FocusKeptGuarantees(p, translated, config);
    hide FocusKept, GraphOf, Reaches, HasTarget;
    var g := GraphOf(translated.focusTransitions);
    assert NewTargetsReachable(p, translated.nodes, g) <==>
             forall id :: HasTarget(translated, id) && id !in p ==> exists s :: s in p && Reaches(g, s, id) by {
      if NewTargetsReachable(p, translated.nodes, g) {
        forall id | HasTarget(translated, id) && id !in p ensures exists s :: s in p && Reaches(g, s, id) {
          assert TargetIn(translated.nodes, id);
        }
      } else {
        var n :| n in translated.nodes && n.FocusTarget() && n.nodeId !in p && !exists s :: s in p && Reaches(g, s, n.nodeId);
        assert TargetIn(translated.nodes, n.nodeId);
      }
    }
  }

  lemma AnnouncementsKeptIff(source: Run, translated: Run)
    requires WellNamed(source) && WellNamed(translated)
    ensures var x := SidesOf(source, translated);
            (forall id :: id in x.sourceAnnouncements ==> AnnouncementKept(x, id)) <==> AnnouncementsSurvive(source, translated)
  {
    hide NodeMap, ActionMap, AnnouncementMap, WellNamed;
    AnnouncementsFound(source);
    AnnouncementsFound(translated);
    var x := SidesOf(source, translated);
    forall a | a in source.announcements ensures AnnouncementKept(x, a.announcementId) <==> AnnouncementSurvives(a, translated) {
      AnnouncementKeptIff(source, translated, a);
    }
  }

  lemma AnnouncementKeptIff(source: Run, translated: Run, a: Announcement)
    requires WellNamed(source) && WellNamed(translated) && a in source.announcements
    ensures AnnouncementKept(SidesOf(source, translated), a.announcementId) <==> AnnouncementSurvives(a, translated)
  {
    AnnouncementsFound(source);
    AnnouncementsFound(translated);
    hide NodeMap, ActionMap, AnnouncementMap, WellNamed;
  }

  /** The verdict is not Violation exactly when every node, every action, every announcement and the focus traversal of
      the source can be found in the translation. */
  lemma NoViolationIff(source: Run, translated: Run, config: Config)
    requires WellNamed(source) && WellNamed(translated)
    ensures VerdictOf(source, translated, config) != Violation <==> Survives(source, translated, config)
  {
    MapsIndex(source, translated);
    NodesSurviveIff(source, translated, config);
    TraversalIff(source, translated, config);
    AnnouncementsKeptIff(source, translated);
    hide NodeMap, ActionMap, AnnouncementMap, WellNamed, UniqueIds, Indexed, FocusKept, FocusOrderOf, AnnouncementKept, AnnouncementsSurvive,
      PreservedAt, NodesSurvive, FocusSequence, TraversalSurvives, NothingAdded, SidesOf;
  }

  lemma NodesSurviveIff(source: Run, translated: Run, config: Config)
    requires WellNamed(source) && WellNamed(translated)
    ensures var x := SidesOf(source, translated);
            (forall id :: id in x.source ==> PreservedAt(x, config, id)) <==> NodesSurvive(source.nodes, translated.nodes, config)
  {
    var x := SidesOf(source, translated);
    MapsIndex(source, translated);
    hide NodeMap, ActionMap, AnnouncementMap, WellNamed, UniqueIds, NodePreserved, NodeSurvives;
    forall s, t | s in source.nodes && t in translated.nodes && s.nodeId == t.nodeId
      ensures NodePreserved(s, t, x.actions, config) <==> NodeSurvives(s, t, config)
    {
      NodePreservedIff(source, translated, s, t, config);
    }
    hide Indexed, PreservedAt, NodesSurvive;
    NodesSurviveGathered(source.nodes, translated.nodes, x, config);
  }

  lemma NodesSurviveGathered(source: seq<Node>, translated: seq<Node>, x: Sides, config: Config)
    requires Indexed(source, x.source) && Indexed(translated, x.translated)
    requires forall s, t :: s in source && t in translated && s.nodeId == t.nodeId ==>
               (NodePreserved(s, t, x.actions, config) <==> NodeSurvives(s, t, config))
    ensures (forall id :: id in x.source ==> PreservedAt(x, config, id)) <==> NodesSurvive(source, translated, config)
  {
    hide NodePreserved, NodeSurvives;
    forall s | s in source
      ensures PreservedAt(x, config, s.nodeId) <==> exists t :: t in translated && t.nodeId == s.nodeId && NodeSurvives(s, t, config)
    {
      if s.nodeId in x.translated {
        var t := x.translated[s.nodeId];
        assert t in translated && t.nodeId == s.nodeId;
      }
    }
    hide PreservedAt;
  }

  // ----- the faults -----

  /** What is reported about one action of a source node and the node's counterpart. */
  ghost predicate ActionFaultAt(s: Node, a: Action, t: Node, f: Fault) {
    || (!HasAction(t, a.actionId) && f == Fault(MissingAction, Some(s.nodeId), "AD-002", Critical))
    || (exists b :: b in t.actions && b.actionId == a.actionId && !b.enabled && f == Fault(DisabledAction, Some(s.nodeId), "AD-002", High))
    || (exists b :: b in t.actions && b.actionId == a.actionId && b.enabled && b.kind != a.kind
                    && f == Fault(MissingAction, Some(s.nodeId), "AD-002", High))
  }

  ghost predicate NodeFaultAt(s: Node, t: Node, config: Config, f: Fault) {
    || (s.role != t.role && f == Fault(RoleChanged, Some(s.nodeId), "AD-003", High))
    || (s.focusable && !t.focusable && f == Fault(FocusabilityDropped, Some(s.nodeId), "AD-001", Critical))
    || (s.focusable && s.enabled && !t.enabled && f == Fault(DisabledReachableNode, Some(s.nodeId), "AD-002", High))
    || (s.name.Some? && t.name.None? && f == Fault(MissingNode, Some(s.nodeId), "AD-003", High))
    || (s.role != Presentation && t.contrast.Some? && t.contrast.value < config.minimumContrast
        && f == Fault(ContrastBelowPolicy, Some(s.nodeId), "AD-004", High))
    || exists a :: a in s.actions && ActionFaultAt(s, a, t, f)
  }

  /** A source node that is gone, or what is wrong with its counterpart. */
  ghost predicate FaultOfNode(s: Node, translated: Run, config: Config, f: Fault) {
    || (!HasNode(translated, s.nodeId) && f == Fault(MissingNode, Some(s.nodeId), "AD-003", Critical))
    || exists t :: t in translated.nodes && t.nodeId == s.nodeId && NodeFaultAt(s, t, config, f)
  }

  ghost predicate FaultOfTraversal(order: seq<NodeId>, translated: Run, f: Fault) {
    var g := GraphOf(translated.focusTransitions);
    || (exists id :: id in order && !HasTarget(translated, id) && f == Fault(UnreachableFocusNode, Some(id), "AD-001", Critical))
    || (exists i :: 0 < i < |order| && !Reaches(g, order[i - 1], order[i]) && f == Fault(MissingFocusTransition, Some(order[i - 1]), "AD-001", Critical))
    || (exists id :: HasTarget(translated, id) && id !in order && (forall s :: s in order ==> !Reaches(g, s, id))
                     && f == Fault(UnreachableFocusNode, Some(id), "AD-001", Critical))
  }

  ghost predicate FaultOfAnnouncement(a: Announcement, translated: Run, f: Fault) {
    !AnnouncementSurvives(a, translated) && f == Fault(MissingAnnouncement, a.nodeId, "AD-003", Medium)
  }

  ghost predicate FaultOnLists(source: Run, translated: Run, config: Config, f: Fault) {
    || (exists s :: s in source.nodes && FaultOfNode(s, translated, config, f))
    || (config.requireFocusReachability && exists order :: FocusSequence(source, order) && FaultOfTraversal(order, translated, f))
    || exists a :: a in source.announcements && FaultOfAnnouncement(a, translated, f)
  }

  lemma ActionFaultIff(source: Run, translated: Run, s: Node, t: Node, f: Fault)
    requires UniqueIds(source) && UniqueIds(translated) && s in source.nodes && t in translated.nodes && s.nodeId == t.nodeId
    ensures var m := Actions(ActionMap(source.nodes), ActionMap(translated.nodes));
            ActionFaultOf(s, m, LostIds(s, m, ActionIds(s)), f) <==> exists a :: a in s.actions && ActionFaultAt(s, a, t, f)
  {
    var m := Actions(ActionMap(source.nodes), ActionMap(translated.nodes));
    hide ActionMap, UniqueIds, ActionLost, ActionFault, ActionSurvives, ActionFaultAt;
    forall a | a in s.actions
      ensures ActionLost((s.nodeId, a.actionId), m) && f == ActionFault((s.nodeId, a.actionId), m) <==> ActionFaultAt(s, a, t, f)
    {
      OneActionFaultIff(source, translated, s, t, a, f);
    }
    if exists a :: a in s.actions && ActionFaultAt(s, a, t, f) {
      var a :| a in s.actions && ActionFaultAt(s, a, t, f);
      assert a.actionId in LostIds(s, m, ActionIds(s));
    }
    if ActionFaultOf(s, m, LostIds(s, m, ActionIds(s)), f) {
      var id :| id in LostIds(s, m, ActionIds(s)) && f == ActionFault((s.nodeId, id), m);
      var a :| a in s.actions && a.actionId == id;
    }
  }

  lemma OneActionFaultIff(source: Run, translated: Run, s: Node, t: Node, a: Action, f: Fault)
    requires UniqueIds(source) && UniqueIds(translated) && s in source.nodes && t in translated.nodes && s.nodeId == t.nodeId && a in s.actions
    ensures var m, k := Actions(ActionMap(source.nodes), ActionMap(translated.nodes)), (s.nodeId, a.actionId);
            ActionLost(k, m) && f == ActionFault(k, m) <==> ActionFaultAt(s, a, t, f)
  {
    ActionFound(source, translated, s, t, a);
    hide ActionMap, UniqueIds, ActionFault, ActionFaultAt, ActionKept;
    var m, k := Actions(ActionMap(source.nodes), ActionMap(translated.nodes)), (s.nodeId, a.actionId);
    if k in m.translated {
      CounterpartFault(s, a, t, m.translated[k], f);
      FoundFault(k, m, f);
    } else {
      NoCounterpartFault(s, a, t, f);
      FoundFault(k, m, f);
    }
  }

  /** What the maps give rise to, by cases. */
  lemma FoundFault(k: ActionKey, m: Actions, f: Fault)
    requires k in m.source
    ensures ActionLost(k, m) && f == ActionFault(k, m) <==>
              if k !in m.translated then f == Fault(MissingAction, Some(k.0), "AD-002", Critical)
              else WrongCounterpart(k.0, m.source[k], m.translated[k], f)
  {
  }

  predicate WrongCounterpart(id: NodeId, a: Action, b: Action, f: Fault) {
    || (!b.enabled && f == Fault(DisabledAction, Some(id), "AD-002", High))
    || (b.enabled && b.kind != a.kind && f == Fault(MissingAction, Some(id), "AD-002", High))
  }

  lemma NoCounterpartFault(s: Node, a: Action, t: Node, f: Fault)
    requires !HasAction(t, a.actionId)
    ensures ActionFaultAt(s, a, t, f) <==> f == Fault(MissingAction, Some(s.nodeId), "AD-002", Critical)
  {
  }

  lemma CounterpartFault(s: Node, a: Action, t: Node, b: Action, f: Fault)
    requires b in t.actions && b.actionId == a.actionId && forall c :: c in t.actions && c.actionId == a.actionId ==> c == b
    ensures ActionFaultAt(s, a, t, f) <==> WrongCounterpart(s.nodeId, a, b, f)
  {
    assert HasAction(t, a.actionId);
    hide HasAction;
  }

  lemma FaultOfNodeIff(source: Run, translated: Run, s: Node, config: Config, f: Fault)
    requires UniqueIds(source) && UniqueIds(translated) && s in source.nodes
    ensures FaultAt(SidesOf(source, translated), config, s.nodeId, f) <==> FaultOfNode(s, translated, config, f)
  {
    NodesFound(source);
    NodesFound(translated);
    hide NodeMap, ActionMap, UniqueIds, AnnouncementMap, NodeFault, NodeFaultAt;
    var x := SidesOf(source, translated);
    if HasNode(translated, s.nodeId) {
      NodeFaultIff(source, translated, s, x.translated[s.nodeId], config, f);
    }
  }

  lemma PlainFaultsAre(s: Node, t: Node, config: Config, f: Fault)
    ensures f in PlainFaults(s, t) || f in ContrastFaults(s, t, config) <==>
              || (s.role != t.role && f == Fault(RoleChanged, Some(s.nodeId), "AD-003", High))
              || (s.focusable && !t.focusable && f == Fault(FocusabilityDropped, Some(s.nodeId), "AD-001", Critical))
              || (s.focusable && s.enabled && !t.enabled && f == Fault(DisabledReachableNode, Some(s.nodeId), "AD-002", High))
              || (s.name.Some? && t.name.None? && f == Fault(MissingNode, Some(s.nodeId), "AD-003", High))
              || (s.role != Presentation && t.contrast.Some? && t.contrast.value < config.minimumContrast
                  && f == Fault(ContrastBelowPolicy, Some(s.nodeId), "AD-004", High))
  {
  }

  lemma NodeFaultIff(source: Run, translated: Run, s: Node, t: Node, config: Config, f: Fault)
    requires UniqueIds(source) && UniqueIds(translated) && s in source.nodes && t in translated.nodes && s.nodeId == t.nodeId
    ensures NodeFault(s, t, Actions(ActionMap(source.nodes), ActionMap(translated.nodes)), config, f) <==> NodeFaultAt(s, t, config, f)
  {
    ActionFaultIff(source, translated, s, t, f);
    PlainFaultsAre(s, t, config, f);
    hide ActionMap, UniqueIds, ActionFaultOf, LostIds, ActionFaultAt, PlainFaults, ContrastFaults;
  }

  lemma FaultOfTraversalIff(source: Run, translated: Run, config: Config, f: Fault)
    requires UniqueIds(source) && UniqueIds(translated)
    ensures FocusFault(FocusOrderOf(NodeMap(source.nodes)), translated, config, f) <==>
              config.requireFocusReachability && exists order :: FocusSequence(source, order) && FaultOfTraversal(order, translated, f)
  {
    var p := FocusOrderOf(NodeMap(source.nodes));
    FocusSequenceIff(source, p);
    TargetsFound(translated);
    hide NodeMap, UniqueIds, FocusOrderOf, FocusSequence, FaultOfTraversal, FocusFault;
    TraversalFaultIff(p, translated, config, f);
    forall order | FocusSequence(source, order) ensures order == p {
      FocusSequenceIff(source, order);
    }
  }

  lemma TraversalFaultIff(p: seq<NodeId>, translated: Run, config: Config, f: Fault)
    requires forall id :: TargetIn(translated.nodes, id) <==> HasTarget(translated, id)
    ensures FocusFault(p, translated, config, f) <==> config.requireFocusReachability && FaultOfTraversal(p, translated, f)
  {
    var g := GraphOf(translated.focusTransitions);
    hide TargetIn, HasTarget, Reaches, GraphOf;
    assert StrandedTarget(p, translated.nodes, g, f) <==>
             exists id :: HasTarget(translated, id) && id !in p && (forall s :: s in p ==> !Reaches(g, s, id)) && f == Unreachable(id) by {
      StrandedIff(p, translated, g, f);
    }
  }

  lemma StrandedIff(p: seq<NodeId>, translated: Run, g: Graph, f: Fault)
    ensures StrandedTarget(p, translated.nodes, g, f) <==>
              exists id :: HasTarget(translated, id) && id !in p && (forall s :: s in p ==> !Reaches(g, s, id)) && f == Unreachable(id)
  {
    hide Reaches;
    if StrandedTarget(p, translated.nodes, g, f) {
      var n :| n in translated.nodes && StrandedBy(p, g, n) && f == Unreachable(n.nodeId);
      assert HasTarget(translated, n.nodeId);
    }
    if id :| HasTarget(translated, id) && id !in p && (forall s :: s in p ==> !Reaches(g, s, id)) && f == Unreachable(id) {
      var n :| n in translated.nodes && n.nodeId == id && n.focusable && n.enabled;
      assert StrandedBy(p, g, n);
    }
  }

  lemma FaultOfAnnouncementIff(source: Run, translated: Run, f: Fault)
    requires WellNamed(source) && WellNamed(translated)
    ensures var x := SidesOf(source, translated);
            AnnouncementFault(x, x.sourceAnnouncements.Keys, f) <==>
              exists a :: a in source.announcements && FaultOfAnnouncement(a, translated, f)
  {
    AnnouncementsFound(source);
    var x := SidesOf(source, translated);
    hide NodeMap, ActionMap, AnnouncementMap, WellNamed, AnnouncementKept, AnnouncementSurvives;
    forall a | a in source.announcements ensures AnnouncementKept(x, a.announcementId) <==> AnnouncementSurvives(a, translated) {
      AnnouncementKeptIff(source, translated, a);
    }
    if a :| a in source.announcements && FaultOfAnnouncement(a, translated, f) {
      assert a.announcementId in x.sourceAnnouncements && x.sourceAnnouncements[a.announcementId] == a;
    }
  }

  /** The faults reported are these and no other. */
  lemma FaultsOnLists(source: Run, translated: Run, config: Config, f: Fault)
    requires WellNamed(source) && WellNamed(translated)
    ensures RunFault(source, translated, config, f) <==> FaultOnLists(source, translated, config, f)
  {
    NodesFound(source);
    FaultOfTraversalIff(source, translated, config, f);
    FaultOfAnnouncementIff(source, translated, f);
    hide NodeMap, ActionMap, AnnouncementMap, WellNamed, UniqueIds, FaultAt, FaultOfNode, FocusFault, FaultOfTraversal, AnnouncementFault,
      FaultOfAnnouncement, FocusOrderOf, FocusSequence;
    var x := SidesOf(source, translated);
    forall s | s in source.nodes ensures FaultAt(x, config, s.nodeId, f) <==> FaultOfNode(s, translated, config, f) {
      FaultOfNodeIff(source, translated, s, config, f);
    }
    if FaultIn(x, config, x.source.Keys, f) {
      var id :| id in x.source.Keys && FaultAt(x, config, id, f);
      assert HasNode(source, id);
      var s :| s in source.nodes && s.nodeId == id;
      assert FaultOfNode(s, translated, config, f);
    }
    if s :| s in source.nodes && FaultOfNode(s, translated, config, f) {
      assert s.nodeId in x.source.Keys && FaultAt(x, config, s.nodeId, f);
    }
  }

  // ----- the improvements -----

  ghost predicate NodeImprovementAt(s: Node, t: Node, config: Config, i: Improvement) {
    || (s.name.None? && t.name.Some? && i == Improvement(AddedAccessibleName, Some(s.nodeId)))
    || (s.description.None? && t.description.Some? && i == Improvement(AddedDescription, Some(s.nodeId)))
    || (s.shortcut.None? && t.shortcut.Some? && i == Improvement(AddedShortcut, Some(s.nodeId)))
    || (s.contrast.Some? && t.contrast.Some? && t.contrast.value - s.contrast.value >= config.improvementDelta
        && t.contrast.value >= config.minimumContrast && i == Improvement(ImprovedContrast, Some(s.nodeId)))
    || exists b :: b in t.actions && !HasAction(s, b.actionId) && i == Improvement(AddedAction, Some(s.nodeId))
  }

  ghost predicate ImprovementOnLists(source: Run, translated: Run, config: Config, i: Improvement) {
    || (exists s, t :: s in source.nodes && t in translated.nodes && s.nodeId == t.nodeId && NodeImprovementAt(s, t, config, i))
    || (exists id :: HasTarget(translated, id) && !HasNode(source, id) && i == Improvement(AddedReachableFocusTarget, Some(id)))
    || exists b :: b in translated.announcements && !HasAnnouncement(source, b.announcementId) && i == Improvement(AddedAnnouncement, b.nodeId)
  }

  lemma AddedIdsOnLists(source: Run, translated: Run, s: Node, t: Node)
    requires UniqueIds(source) && UniqueIds(translated) && s in source.nodes && t in translated.nodes && s.nodeId == t.nodeId
    ensures var m := Actions(ActionMap(source.nodes), ActionMap(translated.nodes));
            forall id :: id in AddedIds(s, m) <==> HasAction(t, id) && !HasAction(s, id)
  {
    UniqueActionsFound(translated, t);
    hide ActionMap, UniqueIds;
    var m := ActionMap(translated.nodes);
    assert forall id :: id in ActionIds(s) <==> HasAction(s, id);
    forall id | HasAction(t, id) ensures (t.nodeId, id) in m {
      var b :| b in t.actions && b.actionId == id;
    }
    forall k | k in m && k.0 == t.nodeId ensures HasAction(t, k.1) {
      assert k.1 in ActionIds(t);
    }
  }

  lemma PlainImprovementsAre(s: Node, t: Node, config: Config, i: Improvement)
    ensures i in PlainImprovements(s, t, config) <==>
              || (s.name.None? && t.name.Some? && i == Improvement(AddedAccessibleName, Some(t.nodeId)))
              || (s.description.None? && t.description.Some? && i == Improvement(AddedDescription, Some(t.nodeId)))
              || (s.shortcut.None? && t.shortcut.Some? && i == Improvement(AddedShortcut, Some(t.nodeId)))
              || (ContrastImproved(s, t, config) && i == Improvement(ImprovedContrast, Some(t.nodeId)))
  {
    hide ContrastImproved;
  }

  lemma NodeImprovementIff(source: Run, translated: Run, s: Node, t: Node, config: Config, i: Improvement)
    requires UniqueIds(source) && UniqueIds(translated) && s in source.nodes && t in translated.nodes && s.nodeId == t.nodeId
    ensures NodeImprovement(s, t, Actions(ActionMap(source.nodes), ActionMap(translated.nodes)), config, i)
       <==> NodeImprovementAt(s, t, config, i)
  {
    SomethingAddedIff(source, translated, s, t);
    PlainImprovementsAre(s, t, config, i);
    hide ActionMap, UniqueIds, AddedIds, PlainImprovements, HasAction;
  }

  lemma SomethingAddedIff(source: Run, translated: Run, s: Node, t: Node)
    requires UniqueIds(source) && UniqueIds(translated) && s in source.nodes && t in translated.nodes && s.nodeId == t.nodeId
    ensures AddedIds(s, Actions(ActionMap(source.nodes), ActionMap(translated.nodes))) != {} <==>
              exists b :: b in t.actions && !HasAction(s, b.actionId)
  {
    AddedIdsOnLists(source, translated, s, t);
    hide ActionMap, UniqueIds, AddedIds;
    var ids := AddedIds(s, Actions(ActionMap(source.nodes), ActionMap(translated.nodes)));
    if b :| b in t.actions && !HasAction(s, b.actionId) {
      assert b.actionId in ids;
    }
    if id :| id in ids {
      var b :| b in t.actions && b.actionId == id;
    }
  }

  lemma AnnouncementNotedIff(source: Run, translated: Run, i: Improvement)
    requires WellNamed(source) && WellNamed(translated)
    ensures var x := SidesOf(source, translated);
            Noted(NewAnnouncementIds(x), AnnouncementNote(x), i) <==>
              exists b :: b in translated.announcements && !HasAnnouncement(source, b.announcementId) && i == Improvement(AddedAnnouncement, b.nodeId)
  {
    AnnouncementsFound(source);
    AnnouncementsFound(translated);
    hide NodeMap, ActionMap, AnnouncementMap, WellNamed;
    var x := SidesOf(source, translated);
    if b :| b in translated.announcements && !HasAnnouncement(source, b.announcementId) && i == Improvement(AddedAnnouncement, b.nodeId) {
      assert b.announcementId in NewAnnouncementIds(x) && AnnouncementNote(x)(b.announcementId) == i;
    }
  }

  lemma TargetNotedIff(source: Run, translated: Run, i: Improvement)
    requires UniqueIds(source) && UniqueIds(translated)
    ensures Noted(NewTargetIds(SidesOf(source, translated)), TargetNote(), i) <==>
              exists id :: HasTarget(translated, id) && !HasNode(source, id) && i == Improvement(AddedReachableFocusTarget, Some(id))
  {
    NodesFound(source);
    NodesFound(translated);
    hide NodeMap, ActionMap, AnnouncementMap, UniqueIds;
    var x := SidesOf(source, translated);
    assert forall id :: id in NewTargetIds(x) <==> HasTarget(translated, id) && !HasNode(source, id);
    hide HasTarget, HasNode, NewTargetIds;
    assert forall id :: TargetNote()(id) == Improvement(AddedReachableFocusTarget, Some(id));
  }

  /** The improvements reported are these and no other. */
  lemma ImprovementsOnLists(source: Run, translated: Run, config: Config, i: Improvement)
    requires WellNamed(source) && WellNamed(translated)
    ensures RunImprovement(source, translated, config, i) <==> ImprovementOnLists(source, translated, config, i)
  {
    var x := SidesOf(source, translated);
    TargetNotedIff(source, translated, i);
    AnnouncementNotedIff(source, translated, i);
    MapsIndex(source, translated);
    hide NodeMap, ActionMap, AnnouncementMap, UniqueIds, WellNamed, NodeImprovement, NodeImprovementAt, Noted, NewTargetIds, NewAnnouncementIds,
      TargetNote, AnnouncementNote, HasTarget, HasAnnouncement, HasNode;
    forall s, t | s in source.nodes && t in translated.nodes && s.nodeId == t.nodeId
      ensures ImprovementAt(x, config, s.nodeId, i) <==> NodeImprovementAt(s, t, config, i)
    {
      assert UniqueIds(source) && UniqueIds(translated);
      NodeImprovementIff(source, translated, s, t, config, i);
    }
    hide ImprovementAt, ImprovementIn, Indexed;
    NodeImprovementsGathered(source.nodes, translated.nodes, x, config, i);
  }

  lemma MapsIndex(source: Run, translated: Run)
    requires WellNamed(source) && WellNamed(translated)
    ensures UniqueIds(source) && UniqueIds(translated)
    ensures var x := SidesOf(source, translated); Indexed(source.nodes, x.source) && Indexed(translated.nodes, x.translated)
  {
    UniqueNodesFound(source);
    UniqueNodesFound(translated);
    hide NodeMap, ActionMap, AnnouncementMap, UniqueIds;
  }

  ghost predicate Indexed(nodes: seq<Node>, m: map<NodeId, Node>) {
    && (forall n :: n in nodes ==> n.nodeId in m && m[n.nodeId] == n)
    && forall id :: id in m ==> m[id] in nodes && m[id].nodeId == id
  }

  lemma NodeImprovementsGathered(source: seq<Node>, translated: seq<Node>, x: Sides, config: Config, i: Improvement)
    requires Indexed(source, x.source) && Indexed(translated, x.translated)
    requires forall s, t :: s in source && t in translated && s.nodeId == t.nodeId ==>
               (ImprovementAt(x, config, s.nodeId, i) <==> NodeImprovementAt(s, t, config, i))
    ensures ImprovementIn(x, config, x.source.Keys, i) <==>
              exists s, t :: s in source && t in translated && s.nodeId == t.nodeId && NodeImprovementAt(s, t, config, i)
  {
    hide NodeImprovement, NodeImprovementAt;
    if id :| id in x.source.Keys && ImprovementAt(x, config, id, i) {
      var s, t := x.source[id], x.translated[id];
      assert s in source && t in translated && s.nodeId == id == t.nodeId;
    }
    if s, t :| s in source && t in translated && s.nodeId == t.nodeId && NodeImprovementAt(s, t, config, i) {
      assert s.nodeId in x.source.Keys && ImprovementAt(x, config, s.nodeId, i);
    }
  }

  // ----- the policies covered, and the numbers -----

  ghost predicate CoveredOnLists(source: Run, translated: Run, config: Config, policy: string) {
    || (exists s, t :: s in source.nodes && t in translated.nodes && s.nodeId == t.nodeId && NodeCoversAt(s, t, config, policy))
    || (config.requireFocusReachability && exists order :: FocusSequence(source, order) && TraversalCoversAt(order, translated, policy))
    || (policy == "AD-003" && exists a :: a in source.announcements && AnnouncementSurvives(a, translated))
  }

  ghost predicate NodeCoversAt(s: Node, t: Node, config: Config, policy: string) {
    || (policy == "AD-003" && (s.role == t.role || s.name.None? || t.name.Some?))
    || (policy == "AD-001" && s.focusable && t.focusable)
    || (policy == "AD-002" && exists a :: a in s.actions && ActionSurvives(a, t))
    || (policy == "AD-004" && s.role != Presentation && t.contrast.Some? && t.contrast.value >= config.minimumContrast)
  }

  ghost predicate TraversalCoversAt(order: seq<NodeId>, translated: Run, policy: string) {
    var g := GraphOf(translated.focusTransitions);
    || (policy == "AD-001" && exists i :: 0 < i < |order| && Reaches(g, order[i - 1], order[i]))
    || (policy == "AD-005" && exists id :: HasTarget(translated, id) && id !in order)
  }

  lemma NodeCoversIff(source: Run, translated: Run, s: Node, t: Node, config: Config, policy: string)
    requires UniqueIds(source) && UniqueIds(translated) && s in source.nodes && t in translated.nodes && s.nodeId == t.nodeId
    ensures NodeCovers(s, t, Actions(ActionMap(source.nodes), ActionMap(translated.nodes)), config, policy) <==>
              NodeCoversAt(s, t, config, policy)
  {
    var m := Actions(ActionMap(source.nodes), ActionMap(translated.nodes));
    hide ActionMap, UniqueIds, ActionSurvives, ActionKept;
    forall a | a in s.actions ensures ActionKept((s.nodeId, a.actionId), m) <==> ActionSurvives(a, t) {
      ActionLostIff(source, translated, s, t, a);
    }
  }

  lemma TraversalCoversIff(source: Run, translated: Run, config: Config, policy: string)
    requires UniqueIds(source) && UniqueIds(translated)
    ensures policy in FocusCovered(FocusOrderOf(NodeMap(source.nodes)), translated, config) <==>
              config.requireFocusReachability && exists order :: FocusSequence(source, order) && TraversalCoversAt(order, translated, policy)
  {
    var p := FocusOrderOf(NodeMap(source.nodes));
    FocusSequenceIff(source, p);
    hide NodeMap, UniqueIds, FocusOrderOf, FocusSequence, TraversalCoversAt, FocusCovered;
    CoveredMeans(p, translated, config, policy);
    forall order | FocusSequence(source, order) ensures order == p {
      FocusSequenceIff(source, order);
    }
  }

  lemma CoveredMeans(p: seq<NodeId>, translated: Run, config: Config, policy: string)
    ensures policy in FocusCovered(p, translated, config) <==> config.requireFocusReachability && TraversalCoversAt(p, translated, policy)
  {
    var g := GraphOf(translated.focusTransitions);
    hide Reaches, GraphOf;
    assert SomeTargetNew(p, translated.nodes) <==> exists id :: HasTarget(translated, id) && id !in p by {
      if n :| n in translated.nodes && n.FocusTarget() && n.nodeId !in p {
        assert HasTarget(translated, n.nodeId);
      }
    }
  }

  /** The policies covered are these and no other. */
  lemma CoversOnLists(source: Run, translated: Run, config: Config, policy: string)
    requires WellNamed(source) && WellNamed(translated)
    ensures RunCovers(source, translated, config, policy) <==> CoveredOnLists(source, translated, config, policy)
  {
    var x := SidesOf(source, translated);
    MapsIndex(source, translated);
    TraversalCoversIff(source, translated, config, policy);
    SomeAnnouncementKeptIff(source, translated);
    hide NodeMap, ActionMap, AnnouncementMap, UniqueIds, WellNamed, NodeCovers, NodeCoversAt, FocusCovered, FocusSequence, TraversalCoversAt,
      FocusOrderOf, KeptAnnouncements, AnnouncementSurvives;
    forall s, t | s in source.nodes && t in translated.nodes && s.nodeId == t.nodeId
      ensures CoversAt(x, config, s.nodeId, policy) <==> NodeCoversAt(s, t, config, policy)
    {
      assert x.source[s.nodeId] == s && x.translated[t.nodeId] == t;
      NodeCoversIff(source, translated, s, t, config, policy);
    }
    hide CoversAt, CoversIn, Indexed;
    NodeCoversGathered(source.nodes, translated.nodes, x, config, policy);
  }

  lemma KeptAnnouncementsOnLists(source: Run, translated: Run)
    requires WellNamed(source) && WellNamed(translated)
    ensures var x := SidesOf(source, translated);
            KeptAnnouncements(x, x.sourceAnnouncements.Keys) == set a | a in source.announcements && AnnouncementSurvives(a, translated) :: a.announcementId
  {
    AnnouncementsFound(source);
    var x := SidesOf(source, translated);
    hide NodeMap, ActionMap, AnnouncementMap, WellNamed, AnnouncementKept, AnnouncementSurvives;
    forall a | a in source.announcements ensures AnnouncementKept(x, a.announcementId) <==> AnnouncementSurvives(a, translated) {
      AnnouncementKeptIff(source, translated, a);
    }
  }

  lemma SomeAnnouncementKeptIff(source: Run, translated: Run)
    requires WellNamed(source) && WellNamed(translated)
    ensures var x := SidesOf(source, translated);
            KeptAnnouncements(x, x.sourceAnnouncements.Keys) != {} <==> exists a :: a in source.announcements && AnnouncementSurvives(a, translated)
  {
    KeptAnnouncementsOnLists(source, translated);
    var x := SidesOf(source, translated);
    hide SidesOf, KeptAnnouncements, WellNamed, AnnouncementSurvives;
    if a :| a in source.announcements && AnnouncementSurvives(a, translated) {
      assert a.announcementId in KeptAnnouncements(x, x.sourceAnnouncements.Keys);
    }
  }

  lemma NodeCoversGathered(source: seq<Node>, translated: seq<Node>, x: Sides, config: Config, policy: string)
    requires Indexed(source, x.source) && Indexed(translated, x.translated)
    requires forall s, t :: s in source && t in translated && s.nodeId == t.nodeId ==>
               (CoversAt(x, config, s.nodeId, policy) <==> NodeCoversAt(s, t, config, policy))
    ensures CoversIn(x, config, x.source.Keys, policy) <==>
              exists s, t :: s in source && t in translated && s.nodeId == t.nodeId && NodeCoversAt(s, t, config, policy)
  {
    hide NodeCovers, NodeCoversAt;
    if id :| id in x.source.Keys && CoversAt(x, config, id, policy) {
      var s, t := x.source[id], x.translated[id];
      assert s in source && t in translated && s.nodeId == id == t.nodeId;
    }
    if s, t :| s in source && t in translated && s.nodeId == t.nodeId && NodeCoversAt(s, t, config, policy) {
      assert s.nodeId in x.source.Keys && CoversAt(x, config, s.nodeId, policy);
    }
  }

  /** Every check of a node either succeeds or is a fault: two for every node, one for a focusable one, one for each
      action, one for a contrast that is measured; losing the enabled state of a target is a fault without counterpart. */
  lemma EveryCheckCounts(source: Run, translated: Run, s: Node, t: Node, config: Config)
    requires UniqueIds(source) && UniqueIds(translated) && s in source.nodes && t in translated.nodes && s.nodeId == t.nodeId
    ensures var m := Actions(ActionMap(source.nodes), ActionMap(translated.nodes));
            NodeSuccesses(s, t, m, config) + NodeFaultCount(s, t, m, config) ==
              2 + (if s.focusable then 1 else 0) + |ActionIds(s)|
              + (if s.role != Presentation && t.contrast.Some? then 1 else 0)
              + (if s.focusable && s.enabled && !t.enabled then 1 else 0)
    ensures var m := Actions(ActionMap(source.nodes), ActionMap(translated.nodes));
            && ActionIds(s) == (set a | a in s.actions :: a.actionId)
            && KeptIds(s, m, ActionIds(s)) == set a | a in s.actions && ActionSurvives(a, t) :: a.actionId
  {
    var m := Actions(ActionMap(source.nodes), ActionMap(translated.nodes));
    KeptOrLostIds(source, translated, s, t);
    hide ActionMap, UniqueIds, ActionSurvives, KeptIds, LostIds, NodeSuccesses, NodeFaultCount;
    ChecksAddUp(s, t, m, config);
  }

  lemma ChecksAddUp(s: Node, t: Node, m: Actions, config: Config)
    ensures NodeSuccesses(s, t, m, config) + NodeFaultCount(s, t, m, config) ==
              2 + (if s.focusable then 1 else 0) + |KeptIds(s, m, ActionIds(s))| + |LostIds(s, m, ActionIds(s))|
              + (if s.role != Presentation && t.contrast.Some? then 1 else 0)
              + (if s.focusable && s.enabled && !t.enabled then 1 else 0)
  {
    hide KeptIds, LostIds, ActionIds;
  }

  lemma KeptOrLostIds(source: Run, translated: Run, s: Node, t: Node)
    requires UniqueIds(source) && UniqueIds(translated) && s in source.nodes && t in translated.nodes && s.nodeId == t.nodeId
    ensures var m := Actions(ActionMap(source.nodes), ActionMap(translated.nodes));
            && KeptIds(s, m, ActionIds(s)) == (set a | a in s.actions && ActionSurvives(a, t) :: a.actionId)
            && |KeptIds(s, m, ActionIds(s))| + |LostIds(s, m, ActionIds(s))| == |set a | a in s.actions :: a.actionId|
  {
    var m := Actions(ActionMap(source.nodes), ActionMap(translated.nodes));
    hide ActionMap, UniqueIds, ActionSurvives, ActionKept, ActionLost;
    forall a | a in s.actions
      ensures ActionKept((s.nodeId, a.actionId), m) <==> ActionSurvives(a, t)
      ensures ActionLost((s.nodeId, a.actionId), m) <==> !ActionSurvives(a, t)
    {
      ActionLostIff(source, translated, s, t, a);
    }
    KeptAndLostApart(s, t, m);
  }

  lemma KeptAndLostApart(s: Node, t: Node, m: Actions)
    requires forall a :: a in s.actions ==>
               && (ActionKept((s.nodeId, a.actionId), m) <==> ActionSurvives(a, t))
               && (ActionLost((s.nodeId, a.actionId), m) <==> !ActionSurvives(a, t))
    ensures KeptIds(s, m, ActionIds(s)) == set a | a in s.actions && ActionSurvives(a, t) :: a.actionId
    ensures |KeptIds(s, m, ActionIds(s))| + |LostIds(s, m, ActionIds(s))| == |ActionIds(s)|
  {
    hide ActionSurvives, ActionKept, ActionLost;
    var kept, lost := KeptIds(s, m, ActionIds(s)), LostIds(s, m, ActionIds(s));
    assert kept + lost == ActionIds(s) && kept !! lost;
    assert |kept + lost| == |kept| + |lost|;
  }

  // ----- the numbers of the traversal -----

  ghost function StepWalkable(order: seq<NodeId>, g: Graph): int -> bool {
    i => 0 < i < |order| && Reaches(g, order[i - 1], order[i])
  }

  ghost function TargetLost(order: seq<NodeId>, nodes: seq<Node>): int -> bool {
    i => 0 <= i < |order| && !exists n :: n in nodes && n.nodeId == order[i] && n.focusable && n.enabled
  }

  ghost function TargetNew(order: seq<NodeId>, nodes: seq<Node>): int -> bool {
    i => 0 <= i < |nodes| && nodes[i].focusable && nodes[i].enabled && nodes[i].nodeId !in order
  }

  ghost function TargetStranded(order: seq<NodeId>, nodes: seq<Node>, g: Graph): int -> bool {
    i => TargetNew(order, nodes)(i) && forall s :: s in order ==> !Reaches(g, s, nodes[i].nodeId)
  }

  lemma {:induction false} OrderNumbers(order: seq<NodeId>, nodes: seq<Node>, g: Graph, n: nat)
    requires n <= |order|
    ensures WalkableSteps(order[..n], g) == Number(n, StepWalkable(order, g))
    ensures LostCount(order[..n], nodes) == Number(n, TargetLost(order, nodes))
  {
    hide Number, Reaches;
    if n == 0 {
      NumberGrows(0, StepWalkable(order, g));
      NumberGrows(0, TargetLost(order, nodes));
    } else {
      OrderNumbers(order, nodes, g, n - 1);
      assert order[..n][..n - 1] == order[..n - 1];
      NumberGrows(n - 1, StepWalkable(order, g));
      NumberGrows(n - 1, TargetLost(order, nodes));
      assert TargetIn(nodes, order[n - 1]) <==> !TargetLost(order, nodes)(n - 1);
    }
  }

  lemma {:induction false} NodeNumbers(order: seq<NodeId>, nodes: seq<Node>, g: Graph, n: nat)
    requires n <= |nodes|
    ensures NewTargets(order, nodes[..n]) == Number(n, TargetNew(order, nodes))
    ensures StrandedCount(order, nodes[..n], g) == Number(n, TargetStranded(order, nodes, g))
  {
    hide Number, Reaches;
    if n == 0 {
      NumberGrows(0, TargetNew(order, nodes));
      NumberGrows(0, TargetStranded(order, nodes, g));
    } else {
      NodeNumbers(order, nodes, g, n - 1);
      assert nodes[..n][..n - 1] == nodes[..n - 1];
      NumberGrows(n - 1, TargetNew(order, nodes));
      NumberGrows(n - 1, TargetStranded(order, nodes, g));
      assert StrandedBy(order, g, nodes[n - 1]) <==> TargetStranded(order, nodes, g)(n - 1);
    }
  }

  /** A success for each step that can be walked and each new target; a fault for each lost target, each step that cannot
      be walked, and each new target that nothing leads to. */
  lemma TraversalNumbers(order: seq<NodeId>, translated: Run, config: Config)
    requires config.requireFocusReachability
    ensures var nodes, g := translated.nodes, GraphOf(translated.focusTransitions);
            var walkable := Number(|order|, StepWalkable(order, g));
            && FocusSuccesses(order, translated, config) == walkable + Number(|nodes|, TargetNew(order, nodes))
            && FocusFaultCount(order, translated, config) + walkable ==
                 Number(|order|, TargetLost(order, nodes)) + Number(|nodes|, TargetStranded(order, nodes, g))
                 + if order == [] then 0 else |order| - 1
  {
    var nodes, g := translated.nodes, GraphOf(translated.focusTransitions);
    OrderNumbers(order, nodes, g, |order|);
    NodeNumbers(order, nodes, g, |nodes|);
    assert order[..|order|] == order && nodes[..|nodes|] == nodes;
    if order == [] {
      assert WalkableSteps(order, g) == 0;
    }
    hide Number, WalkableSteps, LostCount, NewTargets, StrandedCount, StepWalkable, TargetLost, TargetNew, TargetStranded;
  }
}
