/** Accessibility snapshots, and what a comparison of two of them reports. */
module Accessibility {
  import opened Graphs
  import opened Options

  /** Only `Presentation` is treated specially; the other twenty-two roles are compared for equality. */
  datatype Role = Presentation | OtherRole(tag: nat)

  datatype ActionKind = Focus | Activate | Toggle | SetValue | Expand | Collapse | Select | Custom(name: string)

  datatype Action = Action(actionId: string, kind: ActionKind, enabled: bool)

  type U32 = n: nat | n <= 0xFFFF_FFFF

  datatype Node = Node(
    nodeId: NodeId,
    role: Role,
    name: Option<string>,
    description: Option<string>,
    focusable: bool,
    enabled: bool,
    focusOrder: Option<U32>,
    actions: seq<Action>,
    contrast: Option<real>,
    shortcut: Option<string>) {

    predicate FocusTarget() {
      focusable && enabled
    }
  }

  datatype Announcement = Announcement(announcementId: string, nodeId: Option<NodeId>, text: string, politeness: string)

  datatype Run = Run(nodes: seq<Node>, focusTransitions: seq<Edge>, announcements: seq<Announcement>)

  datatype Config = Config(minimumContrast: real, improvementDelta: real, requireFocusReachability: bool)

  datatype RiskLevel = Low | Medium | High | Critical

  datatype ViolationKind =
    | MissingNode
    | RoleChanged
    | FocusabilityDropped
    | DisabledReachableNode
    | MissingAction
    | DisabledAction
    | UnreachableFocusNode
    | MissingFocusTransition
    | ContrastBelowPolicy
    | MissingAnnouncement

  const FOCUS_POLICY := "AD-001"
  const ACTION_POLICY := "AD-002"
  const ASSISTIVE_POLICY := "AD-003"
  const CONTRAST_POLICY := "AD-004"
  const IMPROVEMENT_POLICY := "AD-005"

  function When(c: bool, policy: string): (r: set<string>)
    ensures forall p :: p in r <==> c && p == policy
  {
    if c then {policy} else {}
  }

  datatype Fault = Fault(kind: ViolationKind, nodeId: Option<NodeId>, policy: string, risk: RiskLevel)

  datatype ImprovementKind =
    | AddedAccessibleName
    | AddedDescription
    | AddedAction
    | AddedShortcut
    | ImprovedContrast
    | AddedAnnouncement
    | AddedReachableFocusTarget

  datatype Improvement = Improvement(kind: ImprovementKind, nodeId: Option<NodeId>)

  /** A map built by inserting in order: the last entry of a key stays. */
  function NodeMap(nodes: seq<Node>): (m: map<NodeId, Node>)
    ensures forall n :: n in nodes ==> n.nodeId in m
    ensures forall id :: id in m ==> m[id] in nodes && m[id].nodeId == id
  {
    if nodes == [] then map[]
    else
      var before, last := nodes[..|nodes| - 1], nodes[|nodes| - 1];
      assert nodes == before + [last];
      NodeMap(before)[last.nodeId := last]
  }

  type ActionKey = (NodeId, string)

  function ActionsOf(id: NodeId, actions: seq<Action>): (m: map<ActionKey, Action>)
    ensures forall a :: a in actions ==> (id, a.actionId) in m
    ensures forall k :: k in m ==> k.0 == id && m[k] in actions && m[k].actionId == k.1
  {
    if actions == [] then map[]
    else
      var before, last := actions[..|actions| - 1], actions[|actions| - 1];
      assert actions == before + [last];
      ActionsOf(id, before)[(id, last.actionId) := last]
  }

  function ActionMap(nodes: seq<Node>): (m: map<ActionKey, Action>)
    ensures forall n, a :: n in nodes && a in n.actions ==> (n.nodeId, a.actionId) in m
    ensures forall k :: k in m ==> m[k].actionId == k.1 && exists n :: n in nodes && n.nodeId == k.0 && m[k] in n.actions
  {
    if nodes == [] then map[]
    else
      var before, last := nodes[..|nodes| - 1], nodes[|nodes| - 1];
      assert forall n :: n in nodes <==> n in before || n == last by {
        assert nodes == before + [last];
      }
      ActionMap(before) + ActionsOf(last.nodeId, last.actions)
  }

  function AnnouncementMap(announcements: seq<Announcement>): (m: map<string, Announcement>)
    ensures forall a :: a in announcements ==> a.announcementId in m
    ensures forall id :: id in m ==> m[id] in announcements && m[id].announcementId == id
  {
    if announcements == [] then map[]
    else
      var before, last := announcements[..|announcements| - 1], announcements[|announcements| - 1];
      assert announcements == before + [last];
      AnnouncementMap(before)[last.announcementId := last]
  }

  /** The last node with an id is the one that stays. */
  lemma {:induction false} LastNodeStays(nodes: seq<Node>, i: nat)
    requires i < |nodes| && forall j :: i < j < |nodes| ==> nodes[j].nodeId != nodes[i].nodeId
    ensures nodes[i].nodeId in NodeMap(nodes) && NodeMap(nodes)[nodes[i].nodeId] == nodes[i]
  {
    if i < |nodes| - 1 {
      LastNodeStays(nodes[..|nodes| - 1], i);
    }
  }

  lemma {:induction false} LastAnnouncementStays(announcements: seq<Announcement>, i: nat)
    requires i < |announcements|
    requires forall j :: i < j < |announcements| ==> announcements[j].announcementId != announcements[i].announcementId
    ensures announcements[i].announcementId in AnnouncementMap(announcements)
    ensures AnnouncementMap(announcements)[announcements[i].announcementId] == announcements[i]
  {
    if i < |announcements| - 1 {
      LastAnnouncementStays(announcements[..|announcements| - 1], i);
    }
  }

  lemma {:induction false} LastActionOfNodeStays(id: NodeId, actions: seq<Action>, i: nat)
    requires i < |actions| && forall j :: i < j < |actions| ==> actions[j].actionId != actions[i].actionId
    ensures (id, actions[i].actionId) in ActionsOf(id, actions) && ActionsOf(id, actions)[(id, actions[i].actionId)] == actions[i]
  {
    if i < |actions| - 1 {
      LastActionOfNodeStays(id, actions[..|actions| - 1], i);
    }
  }

  /** Among the actions of one id in nodes of one id, the last in the list of nodes stays, and in its node the last. */
  lemma {:induction false} LastActionStays(nodes: seq<Node>, n: nat, i: nat)
    requires n < |nodes| && i < |nodes[n].actions|
    requires forall j :: i < j < |nodes[n].actions| ==> nodes[n].actions[j].actionId != nodes[n].actions[i].actionId
    requires forall k, b :: n < k < |nodes| && nodes[k].nodeId == nodes[n].nodeId && b in nodes[k].actions ==>
               b.actionId != nodes[n].actions[i].actionId
    ensures var key := (nodes[n].nodeId, nodes[n].actions[i].actionId);
            key in ActionMap(nodes) && ActionMap(nodes)[key] == nodes[n].actions[i]
  {
    var before, last := nodes[..|nodes| - 1], nodes[|nodes| - 1];
    var m := ActionsOf(last.nodeId, last.actions);
    assert ActionMap(nodes) == ActionMap(before) + m;
    hide ActionMap, ActionsOf;
    if n < |nodes| - 1 {
      LastActionStays(before, n, i);
      var key := (nodes[n].nodeId, nodes[n].actions[i].actionId);
      assert key !in m;
    } else {
      LastActionOfNodeStays(last.nodeId, last.actions, i);
    }
  }

  // ----- saturating u32 sums -----

  const U32_MAX: nat := 0xFFFF_FFFF

  function SatAdd(a: nat, b: nat): (r: nat)
    ensures a + b <= 4_294_967_295 ==> r == a + b
    ensures a + b > 4_294_967_295 ==> r == 4_294_967_295
  {
    if a + b > U32_MAX then U32_MAX else a + b
  }

  function Capped(n: nat): (r: nat)
    ensures n <= 4_294_967_295 ==> r == n
    ensures n > 4_294_967_295 ==> r == 4_294_967_295
  {
    if n > U32_MAX then U32_MAX else n
  }

  /** Saturating at every step or once at the end is the same. */
  lemma SaturatingSum(a: nat, b: nat, c: nat)
    ensures SatAdd(SatAdd(Capped(a), Capped(b)), Capped(c)) == Capped(a + b + c)
  {
  }

  function FailureWeight(risk: RiskLevel): nat {
    match risk
    case Low => 1
    case Medium => 2
    case High => 4
    case Critical => 8
  }

  function WeightSum(faults: seq<Fault>): nat {
    if faults == [] then 0 else WeightSum(faults[..|faults| - 1]) + FailureWeight(faults[|faults| - 1].risk)
  }

  lemma {:induction false} WeightAtLeastCount(faults: seq<Fault>)
    ensures |faults| <= WeightSum(faults)
  {
    if faults != [] {
      WeightAtLeastCount(faults[..|faults| - 1]);
    }
  }
}
