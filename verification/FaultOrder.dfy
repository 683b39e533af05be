/** The order in which a report lists faults and improvements. */
module FaultOrder {
  import opened Accessibility
  import opened Sorting
  import opened Options

  function Rank(risk: RiskLevel): nat {
    match risk
    case Low => 0
    case Medium => 1
    case High => 2
    case Critical => 3
  }

  function FaultName(kind: ViolationKind): string {
    match kind
    case MissingNode => "MissingNode"
    case RoleChanged => "RoleChanged"
    case FocusabilityDropped => "FocusabilityDropped"
    case DisabledReachableNode => "DisabledReachableNode"
    case MissingAction => "MissingAction"
    case DisabledAction => "DisabledAction"
    case UnreachableFocusNode => "UnreachableFocusNode"
    case MissingFocusTransition => "MissingFocusTransition"
    case ContrastBelowPolicy => "ContrastBelowPolicy"
    case MissingAnnouncement => "MissingAnnouncement"
  }

  function ImprovementName(kind: ImprovementKind): string {
    match kind
    case AddedAccessibleName => "AddedAccessibleName"
    case AddedDescription => "AddedDescription"
    case AddedAction => "AddedAction"
    case AddedShortcut => "AddedShortcut"
    case ImprovedContrast => "ImprovedContrast"
    case AddedAnnouncement => "AddedAnnouncement"
    case AddedReachableFocusTarget => "AddedReachableFocusTarget"
  }

  /** No node comes before any node. */
  predicate NodeLeq(a: Option<string>, b: Option<string>) {
    a.None? || (b.Some? && Leq(a.value, b.value))
  }

  predicate GraverFirst(a: RiskLevel, b: RiskLevel) {
    Rank(a) >= Rank(b)
  }

  function ByRisk(): (Fault, Fault) -> bool {
    By((f: Fault) => f.risk, GraverFirst)
  }

  function ByPolicy(): (Fault, Fault) -> bool {
    By((f: Fault) => f.policy, Leq)
  }

  function ByFaultNode(): (Fault, Fault) -> bool {
    By((f: Fault) => f.nodeId, NodeLeq)
  }

  function ByFaultName(): (Fault, Fault) -> bool {
    By((f: Fault) => FaultName(f.kind), Leq)
  }

  /** Gravest first, then by policy, node and the name of the kind. */
  function BySeverity(): (Fault, Fault) -> bool {
    Then(Then(Then(ByRisk(), ByPolicy()), ByFaultNode()), ByFaultName())
  }

  /** By node, then by the name of the kind. */
  function ByNode(): (Improvement, Improvement) -> bool {
    Then(By((i: Improvement) => i.nodeId, NodeLeq), By((i: Improvement) => ImprovementName(i.kind), Leq))
  }

  lemma NodeLeqIsTotal()
    ensures TotalPreorder(NodeLeq) && Antisymmetric(NodeLeq)
  {
    LeqIsTotal();
    hide Leq;
  }

  lemma BySeverityIsTotal()
    ensures TotalPreorder(BySeverity())
  {
    LeqIsTotal();
    NodeLeqIsTotal();
    hide Leq, NodeLeq, FaultName;
    ByIsTotal((f: Fault) => f.risk, GraverFirst);
    ByIsTotal((f: Fault) => f.policy, Leq);
    ByIsTotal((f: Fault) => f.nodeId, NodeLeq);
    ByIsTotal((f: Fault) => FaultName(f.kind), Leq);
    ThenIsTotal(ByRisk(), ByPolicy());
    ThenIsTotal(Then(ByRisk(), ByPolicy()), ByFaultNode());
    ThenIsTotal(Then(Then(ByRisk(), ByPolicy()), ByFaultNode()), ByFaultName());
  }

  lemma ByNodeIsTotal()
    ensures TotalPreorder(ByNode())
  {
    LeqIsTotal();
    NodeLeqIsTotal();
    hide Leq, NodeLeq, ImprovementName;
    ByIsTotal((i: Improvement) => i.nodeId, NodeLeq);
    ByIsTotal((i: Improvement) => ImprovementName(i.kind), Leq);
    ThenIsTotal(By((i: Improvement) => i.nodeId, NodeLeq), By((i: Improvement) => ImprovementName(i.kind), Leq));
  }

  lemma NamesDiffer()
    ensures forall a, b :: FaultName(a) == FaultName(b) ==> a == b
    ensures forall a, b :: ImprovementName(a) == ImprovementName(b) ==> a == b
  {
  }

  lemma AlikeByEach(f: Fault, g: Fault)
    requires BySeverity()(f, g) && BySeverity()(g, f)
    ensures ByRisk()(f, g) && ByRisk()(g, f) && ByPolicy()(f, g) && ByPolicy()(g, f)
    ensures ByFaultNode()(f, g) && ByFaultNode()(g, f) && ByFaultName()(f, g) && ByFaultName()(g, f)
  {
    hide ByRisk, ByPolicy, ByFaultNode, ByFaultName, Then;
    AlikeByBoth(Then(Then(ByRisk(), ByPolicy()), ByFaultNode()), ByFaultName(), f, g);
    AlikeByBoth(Then(ByRisk(), ByPolicy()), ByFaultNode(), f, g);
    AlikeByBoth(ByRisk(), ByPolicy(), f, g);
  }

  lemma AlikeInEveryField(f: Fault, g: Fault)
    requires ByRisk()(f, g) && ByRisk()(g, f) && ByPolicy()(f, g) && ByPolicy()(g, f)
    requires ByFaultNode()(f, g) && ByFaultNode()(g, f) && ByFaultName()(f, g) && ByFaultName()(g, f)
    ensures GraverFirst(f.risk, g.risk) && GraverFirst(g.risk, f.risk)
    ensures Leq(f.policy, g.policy) && Leq(g.policy, f.policy)
    ensures NodeLeq(f.nodeId, g.nodeId) && NodeLeq(g.nodeId, f.nodeId)
    ensures Leq(FaultName(f.kind), FaultName(g.kind)) && Leq(FaultName(g.kind), FaultName(f.kind))
  {
    hide GraverFirst, Leq, NodeLeq, FaultName;
  }

  lemma SameKeysSameFault(f: Fault, g: Fault)
    requires BySeverity()(f, g) && BySeverity()(g, f)
    ensures f == g
  {
    hide BySeverity, ByRisk, ByPolicy, ByFaultNode, ByFaultName, Then, By, Leq, NodeLeq, FaultName;
    AlikeByEach(f, g);
    AlikeInEveryField(f, g);
    LeqIsTotal();
    NodeLeqIsTotal();
    NamesDiffer();
  }

  /** The order tells apart all that the faults of a report differ in, so the list depends only on which faults there
      are and how often. */
  lemma FaultListUnique(a: seq<Fault>, b: seq<Fault>)
    requires SortedBy(BySeverity(), a) && SortedBy(BySeverity(), b) && multiset(a) == multiset(b)
    ensures a == b
  {
    BySeverityIsTotal();
    hide BySeverity;
    forall f, g | BySeverity()(f, g) && BySeverity()(g, f) ensures f == g {
      SameKeysSameFault(f, g);
    }
    SortedUnique(BySeverity(), a, b);
  }

  lemma ImprovementListUnique(a: seq<Improvement>, b: seq<Improvement>)
    requires SortedBy(ByNode(), a) && SortedBy(ByNode(), b) && multiset(a) == multiset(b)
    ensures a == b
  {
    ByNodeIsTotal();
    forall i, j | ByNode()(i, j) && ByNode()(j, i) ensures i == j {
      LeqIsTotal();
      NodeLeqIsTotal();
      NamesDiffer();
      hide Leq, NodeLeq, ImprovementName;
      assert NodeLeq(i.nodeId, j.nodeId) && NodeLeq(j.nodeId, i.nodeId);
      assert Leq(ImprovementName(i.kind), ImprovementName(j.kind)) && Leq(ImprovementName(j.kind), ImprovementName(i.kind));
    }
    SortedUnique(ByNode(), a, b);
  }

  // ----- sorting keeps the weight -----

  lemma {:induction false} WeightWithout(faults: seq<Fault>, i: nat)
    requires i < |faults|
    ensures WeightSum(faults) == WeightSum(faults[..i] + faults[i + 1..]) + FailureWeight(faults[i].risk)
    decreases |faults|
  {
    var n := |faults| - 1;
    if i < n {
      WeightWithout(faults[..n], i);
      var rest := faults[..i] + faults[i + 1..];
      assert rest[..n - 1] == faults[..n][..i] + faults[..n][i + 1..] && rest[n - 1] == faults[n];
    } else {
      assert faults[..i] + faults[i + 1..] == faults[..n];
    }
  }

  lemma Without<T>(s: seq<T>, i: nat)
    requires i < |s|
    ensures multiset(s[..i] + s[i + 1..]) == multiset(s) - multiset{s[i]}
  {
    assert s == s[..i] + [s[i]] + s[i + 1..];
  }

  lemma {:induction false} SameWeight(a: seq<Fault>, b: seq<Fault>)
    requires multiset(a) == multiset(b)
    ensures WeightSum(a) == WeightSum(b)
    decreases |a|
  {
    assert |a| == |multiset(a)| == |multiset(b)| == |b|;
    if a != [] {
      var n := |a| - 1;
      Without(a, n);
      assert a[..n] + a[n + 1..] == a[..n];
      assert a[n] in multiset(b);
      var i :| 0 <= i < |b| && b[i] == a[n];
      WeightWithout(b, i);
      Without(b, i);
      var rest := b[..i] + b[i + 1..];
      SameWeight(a[..n], rest);
    }
  }

  // ----- what the order and the weights mean -----

  /** A graver level weighs more: twice the one below it. */
  lemma LevelsDouble()
    ensures FailureWeight(Low) == 1 && FailureWeight(Medium) == 2 * FailureWeight(Low)
    ensures FailureWeight(High) == 2 * FailureWeight(Medium) && FailureWeight(Critical) == 2 * FailureWeight(High)
    ensures forall a, b :: Rank(a) < Rank(b) <==> FailureWeight(a) < FailureWeight(b)
  {
  }

  /** Graver first; at one level the lesser policy id; under one policy no node before any, and the lesser node id; at one
      node the lesser name. */
  lemma SeverityMeans(f: Fault, g: Fault)
    ensures BySeverity()(f, g) <==>
              || FailureWeight(f.risk) > FailureWeight(g.risk)
              || (f.risk == g.risk && Leq(f.policy, g.policy) &&
                  (f.policy == g.policy ==>
                     NodeLeq(f.nodeId, g.nodeId) && (f.nodeId == g.nodeId ==> Leq(FaultName(f.kind), FaultName(g.kind)))))
  {
    LevelsDouble();
    LeqIsTotal();
    NodeLeqIsTotal();
    hide Leq, NodeLeq, FaultName;
    assert Leq(f.policy, g.policy) && Leq(g.policy, f.policy) <==> f.policy == g.policy;
    assert NodeLeq(f.nodeId, g.nodeId) && NodeLeq(g.nodeId, f.nodeId) <==> f.nodeId == g.nodeId;
    assert GraverFirst(f.risk, g.risk) && GraverFirst(g.risk, f.risk) <==> f.risk == g.risk;
  }

  /** The names of the kinds, each smaller than the next at the place given. */
  lemma FaultNamesInOrder()
    ensures Smaller(FaultName(ContrastBelowPolicy), FaultName(DisabledAction), 0)
    ensures Smaller(FaultName(DisabledAction), FaultName(DisabledReachableNode), 8)
    ensures Smaller(FaultName(DisabledReachableNode), FaultName(FocusabilityDropped), 0)
    ensures Smaller(FaultName(FocusabilityDropped), FaultName(MissingAction), 0)
    ensures Smaller(FaultName(MissingAction), FaultName(MissingAnnouncement), 8)
    ensures Smaller(FaultName(MissingAnnouncement), FaultName(MissingFocusTransition), 7)
    ensures Smaller(FaultName(MissingFocusTransition), FaultName(MissingNode), 7)
    ensures Smaller(FaultName(MissingNode), FaultName(RoleChanged), 0)
    ensures Smaller(FaultName(RoleChanged), FaultName(UnreachableFocusNode), 0)
  {
  }

  lemma ImprovementNamesInOrder()
    ensures Smaller(ImprovementName(AddedAccessibleName), ImprovementName(AddedAction), 7)
    ensures Smaller(ImprovementName(AddedAction), ImprovementName(AddedAnnouncement), 6)
    ensures Smaller(ImprovementName(AddedAnnouncement), ImprovementName(AddedDescription), 5)
    ensures Smaller(ImprovementName(AddedDescription), ImprovementName(AddedReachableFocusTarget), 5)
    ensures Smaller(ImprovementName(AddedReachableFocusTarget), ImprovementName(AddedShortcut), 5)
    ensures Smaller(ImprovementName(AddedShortcut), ImprovementName(ImprovedContrast), 0)
  {
  }
}
