/** The comparison of one node with its translation: role, focus, name, actions and contrast. */
module NodeComparison {
  import opened Accessibility
  import opened Options

  /** Both runs' actions by node and action id. */
  datatype Actions = Actions(source: map<ActionKey, Action>, translated: map<ActionKey, Action>)

  function One(c: bool): nat {
    if c then 1 else 0
  }

  function If<T>(c: bool, x: T): seq<T> {
    if c then [x] else []
  }

  // ----- actions -----

  predicate ActionKept(k: ActionKey, m: Actions) {
    && k in m.source && k in m.translated
    && m.translated[k].enabled && m.translated[k].kind == m.source[k].kind
  }

  predicate ActionLost(k: ActionKey, m: Actions) {
    k in m.source && !ActionKept(k, m)
  }

  /** Gone is critical; disabled, or of another kind, is high. */
  function ActionFault(k: ActionKey, m: Actions): Fault {
    if k !in m.translated then Fault(MissingAction, Some(k.0), ACTION_POLICY, Critical)
    else if !m.translated[k].enabled then Fault(DisabledAction, Some(k.0), ACTION_POLICY, High)
    else Fault(MissingAction, Some(k.0), ACTION_POLICY, High)
  }

  function ActionIds(s: Node): set<string> {
    set a | a in s.actions :: a.actionId
  }

  function KeptIds(s: Node, m: Actions, ids: set<string>): set<string> {
    set id | id in ids && ActionKept((s.nodeId, id), m)
  }

  function LostIds(s: Node, m: Actions, ids: set<string>): set<string> {
    set id | id in ids && ActionLost((s.nodeId, id), m)
  }

  function AddedIds(s: Node, m: Actions): set<string> {
    (set k | k in m.translated && k.0 == s.nodeId :: k.1) - ActionIds(s)
  }

  ghost predicate ActionFaultOf(s: Node, m: Actions, ids: set<string>, f: Fault) {
    exists id :: id in ids && f == ActionFault((s.nodeId, id), m)
  }

  /** The loop over the source node's action ids: each known action is either kept or reported once. */
  method CompareActions(s: Node, m: Actions) returns (faults: seq<Fault>, kept: nat)
    ensures forall f :: f in faults <==> ActionFaultOf(s, m, LostIds(s, m, ActionIds(s)), f)
    ensures |faults| == |LostIds(s, m, ActionIds(s))| && kept == |KeptIds(s, m, ActionIds(s))|
  {
    hide ActionFault, ActionKept, ActionFaultOf, LostIds, KeptIds, ActionIds;
    faults, kept := [], 0;
    var todo := ActionIds(s);
    ghost var seen: set<string> := {};
    NothingSeen(s, m);
    while todo != {}
      invariant seen + todo == ActionIds(s) && seen !! todo
      invariant forall f :: f in faults <==> ActionFaultOf(s, m, LostIds(s, m, seen), f)
      invariant |faults| == |LostIds(s, m, seen)| && kept == |KeptIds(s, m, seen)|
    {
      var id :| id in todo;
      OneMoreSeen(s, m, seen, id);
      todo, seen := todo - {id}, seen + {id};
      var k := (s.nodeId, id);
      if ActionKept(k, m) {
        kept := kept + 1;
      } else if k in m.source {
        faults := faults + [ActionFault(k, m)];
      }
    }
    assert seen == ActionIds(s);
  }

  lemma NothingSeen(s: Node, m: Actions)
    ensures LostIds(s, m, {}) == {} && KeptIds(s, m, {}) == {}
    ensures forall f :: !ActionFaultOf(s, m, LostIds(s, m, {}), f)
  {
  }

  lemma OneMoreSeen(s: Node, m: Actions, seen: set<string>, id: string)
    requires id !in seen
    ensures |KeptIds(s, m, seen + {id})| == |KeptIds(s, m, seen)| + One(ActionKept((s.nodeId, id), m))
    ensures |LostIds(s, m, seen + {id})| == |LostIds(s, m, seen)| + One(ActionLost((s.nodeId, id), m))
    ensures forall f :: ActionFaultOf(s, m, LostIds(s, m, seen + {id}), f) <==>
                          ActionFaultOf(s, m, LostIds(s, m, seen), f)
                          || (ActionLost((s.nodeId, id), m) && f == ActionFault((s.nodeId, id), m))
  {
    hide ActionFault, ActionKept, ActionLost, ActionFaultOf, LostIds, KeptIds;
    OneMoreKept(s, m, seen, id);
    OneMoreLost(s, m, seen, id);
    ActionFaultGrows(s, m, LostIds(s, m, seen), id);
  }

  lemma OneMoreKept(s: Node, m: Actions, seen: set<string>, id: string)
    requires id !in seen
    ensures id !in KeptIds(s, m, seen)
    ensures KeptIds(s, m, seen + {id}) == KeptIds(s, m, seen) + if ActionKept((s.nodeId, id), m) then {id} else {}
  {
    hide ActionKept;
  }

  lemma OneMoreLost(s: Node, m: Actions, seen: set<string>, id: string)
    requires id !in seen
    ensures id !in LostIds(s, m, seen)
    ensures LostIds(s, m, seen + {id}) == LostIds(s, m, seen) + if ActionLost((s.nodeId, id), m) then {id} else {}
  {
    hide ActionLost;
  }

  lemma ActionFaultGrows(s: Node, m: Actions, ids: set<string>, id: string)
    ensures forall f :: ActionFaultOf(s, m, ids + {id}, f) <==> ActionFaultOf(s, m, ids, f) || f == ActionFault((s.nodeId, id), m)
  {
    hide ActionFault;
    assert id in ids + {id};
    assert forall x :: x in ids ==> x in ids + {id};
  }

  // ----- the other checks -----

  predicate ContrastTooLow(s: Node, t: Node, config: Config) {
    s.role != Presentation && t.contrast.Some? && t.contrast.value < config.minimumContrast
  }

  predicate ContrastImproved(s: Node, t: Node, config: Config) {
    && s.contrast.Some? && t.contrast.Some?
    && t.contrast.value - s.contrast.value >= config.improvementDelta && t.contrast.value >= config.minimumContrast
  }

  /** The checks made before the actions are looked at, in their order. */
  function PlainFaults(s: Node, t: Node): seq<Fault> {
    If(s.role != t.role, Fault(RoleChanged, Some(s.nodeId), ASSISTIVE_POLICY, High))
    + If(s.focusable && !t.focusable, Fault(FocusabilityDropped, Some(s.nodeId), FOCUS_POLICY, Critical))
    + If(s.enabled && !t.enabled && s.focusable, Fault(DisabledReachableNode, Some(s.nodeId), ACTION_POLICY, High))
    + If(s.name.Some? && t.name.None?, Fault(MissingNode, Some(s.nodeId), ASSISTIVE_POLICY, High))
  }

  function ContrastFaults(s: Node, t: Node, config: Config): seq<Fault> {
    If(ContrastTooLow(s, t, config), Fault(ContrastBelowPolicy, Some(s.nodeId), CONTRAST_POLICY, High))
  }

  function PlainImprovements(s: Node, t: Node, config: Config): seq<Improvement> {
    If(s.name.None? && t.name.Some?, Improvement(AddedAccessibleName, Some(t.nodeId)))
    + If(s.description.None? && t.description.Some?, Improvement(AddedDescription, Some(t.nodeId)))
    + If(s.shortcut.None? && t.shortcut.Some?, Improvement(AddedShortcut, Some(t.nodeId)))
    + If(ContrastImproved(s, t, config), Improvement(ImprovedContrast, Some(t.nodeId)))
  }

  /** The translated node still offers what the source node offered. */
  ghost predicate NodePreserved(s: Node, t: Node, m: Actions, config: Config) {
    && s.role == t.role
    && (s.focusable ==> t.focusable)
    && (s.FocusTarget() ==> t.FocusTarget())
    && (s.name.Some? ==> t.name.Some?)
    && (forall a :: a in s.actions ==> !ActionLost((s.nodeId, a.actionId), m))
    && !ContrastTooLow(s, t, config)
  }

  /** The translated node offers nothing that the source node lacked. */
  ghost predicate NodeNotImproved(s: Node, t: Node, m: Actions, config: Config) {
    && (t.name.Some? ==> s.name.Some?)
    && (t.description.Some? ==> s.description.Some?)
    && (t.shortcut.Some? ==> s.shortcut.Some?)
    && !ContrastImproved(s, t, config)
    && (forall k :: k in m.translated && k.0 == s.nodeId ==> k.1 in ActionIds(s))
  }

  ghost predicate NodeFault(s: Node, t: Node, m: Actions, config: Config, f: Fault) {
    f in PlainFaults(s, t) || f in ContrastFaults(s, t, config) || ActionFaultOf(s, m, LostIds(s, m, ActionIds(s)), f)
  }

  ghost function NodeFaultCount(s: Node, t: Node, m: Actions, config: Config): nat {
    One(s.role != t.role) + One(s.focusable && !t.focusable) + One(s.FocusTarget() && !t.enabled)
    + One(s.name.Some? && t.name.None?) + One(ContrastTooLow(s, t, config)) + |LostIds(s, m, ActionIds(s))|
  }

  /** How many of a node's checks succeed. */
  ghost function NodeSuccesses(s: Node, t: Node, m: Actions, config: Config): nat {
    One(s.role == t.role) + One(s.focusable && t.focusable) + One(s.name.Some? ==> t.name.Some?) + |KeptIds(s, m, ActionIds(s))|
    + One(s.role != Presentation && t.contrast.Some? && !ContrastTooLow(s, t, config))
  }

  /** The policies under which one of its checks succeeds. */
  ghost predicate NodeCovers(s: Node, t: Node, m: Actions, config: Config, policy: string) {
    || (policy == ASSISTIVE_POLICY && (s.role == t.role || (s.name.Some? ==> t.name.Some?)))
    || (policy == FOCUS_POLICY && s.focusable && t.focusable)
    || (policy == ACTION_POLICY && exists a :: a in s.actions && ActionKept((s.nodeId, a.actionId), m))
    || (policy == CONTRAST_POLICY && s.role != Presentation && t.contrast.Some? && !ContrastTooLow(s, t, config))
  }

  lemma SomeActionKeptIff(s: Node, m: Actions)
    ensures |KeptIds(s, m, ActionIds(s))| > 0 <==> exists a :: a in s.actions && ActionKept((s.nodeId, a.actionId), m)
  {
    hide ActionKept;
    if a :| a in s.actions && ActionKept((s.nodeId, a.actionId), m) {
      assert a.actionId in KeptIds(s, m, ActionIds(s));
    }
    if |KeptIds(s, m, ActionIds(s))| > 0 {
      var id :| id in KeptIds(s, m, ActionIds(s));
      var a :| a in s.actions && a.actionId == id;
    }
  }

  /** A node without a success covers nothing, and the other way around. */
  lemma NothingCoveredIffNoSuccess(s: Node, t: Node, m: Actions, config: Config)
    ensures (forall p :: !NodeCovers(s, t, m, config, p)) <==> NodeSuccesses(s, t, m, config) == 0
  {
    SomeActionKeptIff(s, m);
    hide KeptIds, ActionIds, ActionKept, ContrastTooLow;
    assert NodeCovers(s, t, m, config, ASSISTIVE_POLICY) <==> s.role == t.role || (s.name.Some? ==> t.name.Some?);
    assert NodeCovers(s, t, m, config, FOCUS_POLICY) <==> s.focusable && t.focusable;
    assert NodeCovers(s, t, m, config, ACTION_POLICY) <==> exists a :: a in s.actions && ActionKept((s.nodeId, a.actionId), m);
    assert NodeCovers(s, t, m, config, CONTRAST_POLICY) <==> s.role != Presentation && t.contrast.Some? && !ContrastTooLow(s, t, config);
  }

  ghost predicate NodeImprovement(s: Node, t: Node, m: Actions, config: Config, i: Improvement) {
    i in PlainImprovements(s, t, config) || (AddedIds(s, m) != {} && i == Improvement(AddedAction, Some(s.nodeId)))
  }

  ghost function NodeImprovementCount(s: Node, t: Node, m: Actions, config: Config): nat {
    One(s.name.None? && t.name.Some?) + One(s.description.None? && t.description.Some?)
    + One(s.shortcut.None? && t.shortcut.Some?) + One(ContrastImproved(s, t, config)) + |AddedIds(s, m)|
  }

  lemma NothingIn<T>(s: seq<T>)
    ensures (forall x :: x !in s) <==> |s| == 0
  {
    assert s != [] ==> s[0] in s;
  }

  lemma NoActionFaultIff(s: Node, m: Actions)
    ensures (forall f :: !ActionFaultOf(s, m, LostIds(s, m, ActionIds(s)), f)) <==>
              forall a :: a in s.actions ==> !ActionLost((s.nodeId, a.actionId), m)
  {
    hide ActionFault, ActionLost;
    forall a | a in s.actions && ActionLost((s.nodeId, a.actionId), m)
      ensures ActionFaultOf(s, m, LostIds(s, m, ActionIds(s)), ActionFault((s.nodeId, a.actionId), m))
    {
      assert a.actionId in LostIds(s, m, ActionIds(s));
    }
    forall f | ActionFaultOf(s, m, LostIds(s, m, ActionIds(s)), f) ensures exists a :: a in s.actions && ActionLost((s.nodeId, a.actionId), m) {
      var id :| id in LostIds(s, m, ActionIds(s)) && f == ActionFault((s.nodeId, id), m);
      var a :| a in s.actions && a.actionId == id;
    }
  }

  /** No fault can be found exactly when the translation preserves the node. */
  lemma NoFaultIffPreserved(s: Node, t: Node, m: Actions, config: Config)
    ensures (forall f :: !NodeFault(s, t, m, config, f)) <==> NodePreserved(s, t, m, config)
  {
    NothingIn(PlainFaults(s, t));
    NothingIn(ContrastFaults(s, t, config));
    NoActionFaultIff(s, m);
    hide ActionFaultOf, ActionLost, LostIds, ActionIds;
    assert forall f :: f in PlainFaults(s, t) || f in ContrastFaults(s, t, config) ==> NodeFault(s, t, m, config, f);
    assert forall f :: ActionFaultOf(s, m, LostIds(s, m, ActionIds(s)), f) ==> NodeFault(s, t, m, config, f);
    assert |PlainFaults(s, t)| == 0 <==>
             s.role == t.role && (s.focusable ==> t.focusable) && (s.FocusTarget() ==> t.enabled) && (s.name.Some? ==> t.name.Some?);
  }

  /** And no improvement exactly when it adds nothing. */
  lemma NoImprovementIff(s: Node, t: Node, m: Actions, config: Config)
    ensures (forall i :: !NodeImprovement(s, t, m, config, i)) <==> NodeNotImproved(s, t, m, config)
  {
    NothingIn(PlainImprovements(s, t, config));
    NothingAddedIff(s, m);
    hide AddedIds, ActionIds;
    var added := Improvement(AddedAction, Some(s.nodeId));
    assert AddedIds(s, m) != {} ==> NodeImprovement(s, t, m, config, added);
    assert forall i :: i in PlainImprovements(s, t, config) ==> NodeImprovement(s, t, m, config, i);
  }

  lemma NothingAddedIff(s: Node, m: Actions)
    ensures AddedIds(s, m) == {} <==> forall k :: k in m.translated && k.0 == s.nodeId ==> k.1 in ActionIds(s)
  {
    if AddedIds(s, m) == {} {
      forall k | k in m.translated && k.0 == s.nodeId ensures k.1 in ActionIds(s) {
        assert k.1 !in AddedIds(s, m);
      }
    }
  }

  datatype NodeResult =
    NodeResult(faults: seq<Fault>, improvements: seq<Improvement>, successes: nat, covered: set<string>, actionsCompared: nat)

  lemma CountsAddUp(s: Node, t: Node, m: Actions, config: Config)
    ensures |PlainFaults(s, t)| + |LostIds(s, m, ActionIds(s))| + |ContrastFaults(s, t, config)| == NodeFaultCount(s, t, m, config)
    ensures |PlainImprovements(s, t, config)| + |AddedIds(s, m)| == NodeImprovementCount(s, t, m, config)
  {
    hide ContrastTooLow, ContrastImproved, LostIds, AddedIds, ActionIds;
  }

  method Covered(s: Node, t: Node, m: Actions, config: Config, kept: nat) returns (covered: set<string>)
    requires kept == |KeptIds(s, m, ActionIds(s))|
    ensures forall p :: p in covered <==> NodeCovers(s, t, m, config, p)
  {
    SomeActionKeptIff(s, m);
    hide KeptIds, ActionIds, ActionKept, ContrastTooLow, When;
    covered := When(s.role == t.role || (s.name.Some? ==> t.name.Some?), ASSISTIVE_POLICY)
               + When(s.focusable && t.focusable, FOCUS_POLICY)
               + When(kept > 0, ACTION_POLICY)
               + When(s.role != Presentation && t.contrast.Some? && !ContrastTooLow(s, t, config), CONTRAST_POLICY);
  }

  method CompareNode(s: Node, t: Node, m: Actions, config: Config) returns (r: NodeResult)
    ensures forall f :: f in r.faults <==> NodeFault(s, t, m, config, f)
    ensures |r.faults| == NodeFaultCount(s, t, m, config)
    ensures forall i :: i in r.improvements <==> NodeImprovement(s, t, m, config, i)
    ensures |r.improvements| == NodeImprovementCount(s, t, m, config)
    ensures r.successes == Capped(NodeSuccesses(s, t, m, config))
    ensures forall p :: p in r.covered <==> NodeCovers(s, t, m, config, p)
    ensures r.actionsCompared == |ActionIds(s)|
  {
    CountsAddUp(s, t, m, config);
    hide AddedIds, KeptIds, LostIds, ActionIds, ActionKept, ActionFaultOf, ContrastTooLow, ContrastImproved, PlainFaults, PlainImprovements,
      ContrastFaults, NodeFaultCount, NodeImprovementCount, NodeCovers, One, SatAdd, Capped;
    var plain := One(s.role == t.role) + One(s.focusable && t.focusable) + One(s.name.Some? ==> t.name.Some?);
    var actionFaults, kept := CompareActions(s, m);
    var readable := One(s.role != Presentation && t.contrast.Some? && !ContrastTooLow(s, t, config));
    SaturatingSum(plain, kept, readable);
    var successes := SatAdd(SatAdd(Capped(plain), Capped(kept)), Capped(readable));
    var added := NoteAdded(s, AddedIds(s, m));
    var covered := Covered(s, t, m, config, kept);
    r := NodeResult(PlainFaults(s, t) + actionFaults + ContrastFaults(s, t, config), PlainImprovements(s, t, config) + added, successes,
                    covered, |ActionIds(s)|);
  }

  method NoteAdded(s: Node, ids: set<string>) returns (improvements: seq<Improvement>)
    ensures |improvements| == |ids|
    ensures forall i :: i in improvements <==> ids != {} && i == Improvement(AddedAction, Some(s.nodeId))
  {
    improvements := [];
    var todo := ids;
    while todo != {}
      invariant todo <= ids && |improvements| + |todo| == |ids|
      invariant forall i :: i in improvements ==> i == Improvement(AddedAction, Some(s.nodeId))
    {
      var id :| id in todo;
      todo := todo - {id};
      improvements := improvements + [Improvement(AddedAction, Some(s.nodeId))];
    }
    assert ids != {} ==> improvements[0] in improvements;
  }
}
