/** The comparison of two accessibility runs: every fault found, what was added, the verdict and the risk. */
module AccessibilityDiff {
  import opened Graphs
  import opened Accessibility
  import opened FocusGraph
  import opened NodeComparison
  import opened FaultOrder
  import opened ConfidenceModel
  import opened Sorting
  import opened SetSums
  import opened Options

  /** The maps that one comparison works on. */
  datatype Sides = Sides(
    source: map<NodeId, Node>,
    translated: map<NodeId, Node>,
    actions: Actions,
    sourceAnnouncements: map<string, Announcement>,
    translatedAnnouncements: map<string, Announcement>)

  function SidesOf(source: Run, translated: Run): Sides {
    Sides(NodeMap(source.nodes), NodeMap(translated.nodes),
          Actions(ActionMap(source.nodes), ActionMap(translated.nodes)),
          AnnouncementMap(source.announcements), AnnouncementMap(translated.announcements))
  }

  // ----- what the report accumulates -----

  /** Faults with their saturating weight and the policies they break. */
  datatype Tally = Tally(faults: seq<Fault>, weighted: nat, policies: set<string>) {
    ghost predicate Exact() {
      && weighted == Capped(WeightSum(faults))
      && forall p :: p in policies <==> exists f :: f in faults && f.policy == p
    }
  }

  function Recorded(t: Tally, f: Fault): (r: Tally)
    ensures t.Exact() ==> r.Exact()
  {
    assert (t.faults + [f])[..|t.faults|] == t.faults;
    assert forall x :: x in t.faults + [f] <==> x in t.faults || x == f;
    Tally(t.faults + [f], SatAdd(t.weighted, FailureWeight(f.risk)), t.policies + {f.policy})
  }

  method RecordAll(t0: Tally, faults: seq<Fault>) returns (t: Tally)
    requires t0.Exact()
    ensures t.Exact() && t.faults == t0.faults + faults
  {
    t := t0;
    for i := 0 to |faults|
      invariant t.Exact() && t.faults == t0.faults + faults[..i]
    {
      t := Recorded(t, faults[i]);
    }
  }

  // ----- nodes -----

  function Dropped(id: NodeId): Fault {
    Fault(MissingNode, Some(id), ASSISTIVE_POLICY, Critical)
  }

  ghost predicate FaultAt(x: Sides, config: Config, id: NodeId, f: Fault) {
    id in x.source &&
    if id in x.translated then NodeFault(x.source[id], x.translated[id], x.actions, config, f) else f == Dropped(id)
  }

  ghost predicate FaultIn(x: Sides, config: Config, ids: set<NodeId>, f: Fault) {
    exists id :: id in ids && FaultAt(x, config, id, f)
  }

  ghost predicate ImprovementAt(x: Sides, config: Config, id: NodeId, i: Improvement) {
    id in x.source && id in x.translated && NodeImprovement(x.source[id], x.translated[id], x.actions, config, i)
  }

  ghost predicate ImprovementIn(x: Sides, config: Config, ids: set<NodeId>, i: Improvement) {
    exists id :: id in ids && ImprovementAt(x, config, id, i)
  }

  ghost predicate CoversAt(x: Sides, config: Config, id: NodeId, policy: string) {
    id in x.source && id in x.translated && NodeCovers(x.source[id], x.translated[id], x.actions, config, policy)
  }

  ghost predicate CoversIn(x: Sides, config: Config, ids: set<NodeId>, policy: string) {
    exists id :: id in ids && CoversAt(x, config, id, policy)
  }

  ghost predicate PreservedAt(x: Sides, config: Config, id: NodeId)
    requires id in x.source
  {
    id in x.translated && NodePreserved(x.source[id], x.translated[id], x.actions, config)
  }

  ghost predicate NotImprovedAt(x: Sides, config: Config, id: NodeId)
    requires id in x.source
  {
    id in x.translated ==> NodeNotImproved(x.source[id], x.translated[id], x.actions, config)
  }

  ghost function FaultsAt(x: Sides, config: Config): NodeId -> nat {
    (id: NodeId) =>
      if id !in x.source then 0
      else if id in x.translated then NodeFaultCount(x.source[id], x.translated[id], x.actions, config)
      else 1
  }

  ghost function ImprovementsAt(x: Sides, config: Config): NodeId -> nat {
    (id: NodeId) =>
      if id in x.source && id in x.translated then NodeImprovementCount(x.source[id], x.translated[id], x.actions, config) else 0
  }

  ghost function SuccessesAt(x: Sides, config: Config): NodeId -> nat {
    (id: NodeId) =>
      if id in x.source && id in x.translated then NodeSuccesses(x.source[id], x.translated[id], x.actions, config) else 0
  }

  ghost function ActionsAt(x: Sides): NodeId -> nat {
    (id: NodeId) => if id in x.source && id in x.translated then |ActionIds(x.source[id])| else 0
  }

  ghost function FaultTotal(x: Sides, config: Config): nat {
    Sum(x.source.Keys, FaultsAt(x, config))
  }

  ghost function ImprovementTotal(x: Sides, config: Config): nat {
    Sum(x.source.Keys, ImprovementsAt(x, config))
  }

  ghost function SuccessTotal(x: Sides, config: Config): nat {
    Sum(x.source.Keys, SuccessesAt(x, config))
  }

  ghost function ActionTotal(x: Sides): nat {
    Sum(x.source.Keys, ActionsAt(x))
  }

  /** One source node: compared with its translation, or reported as dropped. */
  method CompareAt(x: Sides, config: Config, id: NodeId) returns (r: NodeResult)
    requires id in x.source
    ensures forall f :: f in r.faults <==> FaultAt(x, config, id, f)
    ensures |r.faults| == FaultsAt(x, config)(id)
    ensures forall i :: i in r.improvements <==> ImprovementAt(x, config, id, i)
    ensures |r.improvements| == ImprovementsAt(x, config)(id)
    ensures r.successes == Capped(SuccessesAt(x, config)(id))
    ensures forall p :: p in r.covered <==> CoversAt(x, config, id, p)
    ensures r.actionsCompared == ActionsAt(x)(id)
  {
    hide NodeFault, NodeFaultCount, NodeImprovement, NodeImprovementCount, NodeSuccesses, NodeCovers;
    if id in x.translated {
      r := CompareNode(x.source[id], x.translated[id], x.actions, config);
    } else {
      r := NodeResult([Dropped(id)], [], 0, {}, 0);
    }
  }

  lemma FaultInGrows(x: Sides, config: Config, ids: set<NodeId>, id: NodeId)
    ensures forall f :: FaultIn(x, config, ids + {id}, f) <==> FaultIn(x, config, ids, f) || FaultAt(x, config, id, f)
  {
    hide FaultAt;
    assert id in ids + {id};
    assert forall y :: y in ids ==> y in ids + {id};
  }

  lemma ImprovementInGrows(x: Sides, config: Config, ids: set<NodeId>, id: NodeId)
    ensures forall i :: ImprovementIn(x, config, ids + {id}, i) <==> ImprovementIn(x, config, ids, i) || ImprovementAt(x, config, id, i)
  {
    hide ImprovementAt;
    assert id in ids + {id};
    assert forall y :: y in ids ==> y in ids + {id};
  }

  lemma CoversInGrows(x: Sides, config: Config, ids: set<NodeId>, id: NodeId)
    ensures forall p :: CoversIn(x, config, ids + {id}, p) <==> CoversIn(x, config, ids, p) || CoversAt(x, config, id, p)
  {
    hide CoversAt;
    assert id in ids + {id};
    assert forall y :: y in ids ==> y in ids + {id};
  }

  lemma NothingSeenYet(x: Sides, config: Config)
    ensures Tally([], 0, {}).Exact()
    ensures (forall f :: !FaultIn(x, config, {}, f)) && forall i :: !ImprovementIn(x, config, {}, i)
    ensures forall p :: !CoversIn(x, config, {}, p)
  {
  }

  method CompareNodes(x: Sides, config: Config)
    returns (t: Tally, improvements: seq<Improvement>, successes: nat, covered: set<string>, actionsCompared: nat)
    ensures t.Exact()
    ensures forall f :: f in t.faults <==> FaultIn(x, config, x.source.Keys, f)
    ensures |t.faults| == FaultTotal(x, config)
    ensures forall i :: i in improvements <==> ImprovementIn(x, config, x.source.Keys, i)
    ensures |improvements| == ImprovementTotal(x, config)
    ensures successes == Capped(SuccessTotal(x, config))
    ensures forall p :: p in covered <==> CoversIn(x, config, x.source.Keys, p)
    ensures actionsCompared == ActionTotal(x)
  {
    hide FaultAt, FaultIn, ImprovementAt, ImprovementIn, CoversAt, CoversIn, FaultsAt, ImprovementsAt, SuccessesAt, ActionsAt, Tally.Exact;
    NothingSeenYet(x, config);
    t, improvements, successes, covered, actionsCompared := Tally([], 0, {}), [], 0, {}, 0;
    var todo := x.source.Keys;
    ghost var seen: set<NodeId> := {};
    while todo != {}
      invariant seen + todo == x.source.Keys && seen !! todo
      invariant t.Exact()
      invariant forall f :: f in t.faults <==> FaultIn(x, config, seen, f)
      invariant |t.faults| == Sum(seen, FaultsAt(x, config))
      invariant forall i :: i in improvements <==> ImprovementIn(x, config, seen, i)
      invariant |improvements| == Sum(seen, ImprovementsAt(x, config))
      invariant successes == Capped(Sum(seen, SuccessesAt(x, config)))
      invariant forall p :: p in covered <==> CoversIn(x, config, seen, p)
      invariant actionsCompared == Sum(seen, ActionsAt(x))
    {
      var id :| id in todo;
      FaultInGrows(x, config, seen, id);
      ImprovementInGrows(x, config, seen, id);
      CoversInGrows(x, config, seen, id);
      SumAdd(seen, FaultsAt(x, config), id);
      SumAdd(seen, ImprovementsAt(x, config), id);
      SumAdd(seen, SuccessesAt(x, config), id);
      SumAdd(seen, ActionsAt(x), id);
      var r := CompareAt(x, config, id);
      t := RecordAll(t, r.faults);
      improvements := improvements + r.improvements;
      successes := SatAdd(successes, r.successes);
      covered := covered + r.covered;
      actionsCompared := actionsCompared + r.actionsCompared;
      todo, seen := todo - {id}, seen + {id};
    }
    assert seen == x.source.Keys;
  }

  // ----- announcements -----

  predicate AnnouncementKept(x: Sides, id: string) {
    && id in x.sourceAnnouncements && id in x.translatedAnnouncements
    && x.sourceAnnouncements[id].text == x.translatedAnnouncements[id].text
    && x.sourceAnnouncements[id].politeness == x.translatedAnnouncements[id].politeness
  }

  /** Missing and changed announcements are reported alike. */
  ghost predicate AnnouncementFault(x: Sides, ids: set<string>, f: Fault) {
    exists id :: id in ids && id in x.sourceAnnouncements && !AnnouncementKept(x, id)
                 && f == Fault(MissingAnnouncement, x.sourceAnnouncements[id].nodeId, ASSISTIVE_POLICY, Medium)
  }

  function KeptAnnouncements(x: Sides, ids: set<string>): set<string> {
    set id | id in ids && AnnouncementKept(x, id)
  }

  lemma AnnouncementFaultGrows(x: Sides, ids: set<string>, id: string)
    requires id !in ids && id in x.sourceAnnouncements
    ensures |KeptAnnouncements(x, ids + {id})| == |KeptAnnouncements(x, ids)| + One(AnnouncementKept(x, id))
    ensures forall f :: AnnouncementFault(x, ids + {id}, f) <==>
                          AnnouncementFault(x, ids, f)
                          || (!AnnouncementKept(x, id) && f == Fault(MissingAnnouncement, x.sourceAnnouncements[id].nodeId, ASSISTIVE_POLICY, Medium))
  {
    hide AnnouncementKept;
    assert KeptAnnouncements(x, ids + {id}) == KeptAnnouncements(x, ids) + if AnnouncementKept(x, id) then {id} else {};
    assert id in ids + {id};
    assert forall y :: y in ids ==> y in ids + {id};
  }

  /** `i` is what is noted for one of `ids`. */
  ghost predicate Noted<K(!new)>(ids: set<K>, note: K -> Improvement, i: Improvement) {
    exists id :: id in ids && i == note(id)
  }

  lemma NotedGrows<K(!new)>(ids: set<K>, note: K -> Improvement, id: K)
    ensures forall i :: Noted(ids + {id}, note, i) <==> Noted(ids, note, i) || i == note(id)
  {
    assert id in ids + {id};
    assert forall k :: k in ids ==> k in ids + {id};
  }

  lemma NothingNoted<K(!new)>(note: K -> Improvement)
    ensures forall i :: !Noted({}, note, i)
  {
  }

  /** One improvement for each of the ids that the source lacks. */
  method NoteEach<K(!new, ==)>(ids: set<K>, note: K -> Improvement) returns (improvements: seq<Improvement>)
    ensures forall i :: i in improvements <==> Noted(ids, note, i)
    ensures |improvements| == |ids|
  {
    hide Noted;
    improvements := [];
    var todo := ids;
    ghost var seen: set<K> := {};
    NothingNoted(note);
    while todo != {}
      invariant seen + todo == ids && seen !! todo
      invariant |improvements| == |seen| && forall i :: i in improvements <==> Noted(seen, note, i)
    {
      var id :| id in todo;
      NotedGrows(seen, note, id);
      improvements := improvements + [note(id)];
      todo, seen := todo - {id}, seen + {id};
    }
    assert seen == ids;
  }

  function NewAnnouncementIds(x: Sides): set<string> {
    x.translatedAnnouncements.Keys - x.sourceAnnouncements.Keys
  }

  function AnnouncementNote(x: Sides): string -> Improvement {
    (id: string) => Improvement(AddedAnnouncement, if id in x.translatedAnnouncements then x.translatedAnnouncements[id].nodeId else None)
  }

  method CompareAnnouncements(x: Sides) returns (faults: seq<Fault>, improvements: seq<Improvement>, matched: nat)
    ensures forall f :: f in faults <==> AnnouncementFault(x, x.sourceAnnouncements.Keys, f)
    ensures |faults| == |x.sourceAnnouncements.Keys - KeptAnnouncements(x, x.sourceAnnouncements.Keys)|
    ensures matched == |KeptAnnouncements(x, x.sourceAnnouncements.Keys)|
    ensures forall i :: i in improvements <==> Noted(NewAnnouncementIds(x), AnnouncementNote(x), i)
    ensures |improvements| == |NewAnnouncementIds(x)|
  {
    hide AnnouncementKept, AnnouncementFault, KeptAnnouncements, Noted;
    faults, matched := MatchAnnouncements(x);
    KeptOrLost(x);
    improvements := NoteEach(NewAnnouncementIds(x), AnnouncementNote(x));
  }

  /** The loop over the source announcements: each is matched or reported once. */
  method MatchAnnouncements(x: Sides) returns (faults: seq<Fault>, matched: nat)
    ensures forall f :: f in faults <==> AnnouncementFault(x, x.sourceAnnouncements.Keys, f)
    ensures |faults| + matched == |x.sourceAnnouncements.Keys|
    ensures matched == |KeptAnnouncements(x, x.sourceAnnouncements.Keys)|
  {
    hide AnnouncementKept, AnnouncementFault, KeptAnnouncements;
    faults, matched := [], 0;
    var todo := x.sourceAnnouncements.Keys;
    ghost var seen: set<string> := {};
    NoAnnouncementSeen(x);
    while todo != {}
      invariant seen + todo == x.sourceAnnouncements.Keys && seen !! todo
      invariant forall f :: f in faults <==> AnnouncementFault(x, seen, f)
      invariant |faults| + matched == |seen| && matched == |KeptAnnouncements(x, seen)|
    {
      var id :| id in todo;
      AnnouncementFaultGrows(x, seen, id);
      todo, seen := todo - {id}, seen + {id};
      if AnnouncementKept(x, id) {
        matched := matched + 1;
      } else {
        faults := faults + [Fault(MissingAnnouncement, x.sourceAnnouncements[id].nodeId, ASSISTIVE_POLICY, Medium)];
      }
    }
    assert seen == x.sourceAnnouncements.Keys;
  }

  lemma NoAnnouncementSeen(x: Sides)
    ensures KeptAnnouncements(x, {}) == {} && forall f :: !AnnouncementFault(x, {}, f)
  {
  }

  lemma KeptOrLost(x: Sides)
    ensures var all := x.sourceAnnouncements.Keys;
            |all - KeptAnnouncements(x, all)| + |KeptAnnouncements(x, all)| == |all|
  {
    var all := x.sourceAnnouncements.Keys;
    assert all == (all - KeptAnnouncements(x, all)) + KeptAnnouncements(x, all);
  }

  lemma NoAnnouncementFaultIff(x: Sides)
    ensures (forall f :: !AnnouncementFault(x, x.sourceAnnouncements.Keys, f)) <==>
              forall id :: id in x.sourceAnnouncements ==> AnnouncementKept(x, id)
  {
    if id :| id in x.sourceAnnouncements && !AnnouncementKept(x, id) {
      assert AnnouncementFault(x, x.sourceAnnouncements.Keys,
                               Fault(MissingAnnouncement, x.sourceAnnouncements[id].nodeId, ASSISTIVE_POLICY, Medium));
    }
  }

  // ----- focus targets the source lacks -----

  function NewTargetIds(x: Sides): set<NodeId> {
    set id | id in x.translated && id !in x.source && x.translated[id].FocusTarget()
  }

  function TargetNote(): NodeId -> Improvement {
    (id: NodeId) => Improvement(AddedReachableFocusTarget, Some(id))
  }

  // ----- risk -----

  method HighestRisk(faults: seq<Fault>) returns (risk: RiskLevel)
    ensures forall f :: f in faults ==> Rank(f.risk) <= Rank(risk)
    ensures if faults == [] then risk == Low else exists f :: f in faults && f.risk == risk
  {
    risk := Low;
    for i := 0 to |faults|
      invariant forall f :: f in faults[..i] ==> Rank(f.risk) <= Rank(risk)
      invariant if i == 0 then risk == Low else exists f :: f in faults[..i] && f.risk == risk
    {
      assert faults[..i + 1] == faults[..i] + [faults[i]] && faults[i] in faults[..i + 1];
      if i == 0 || Rank(faults[i].risk) > Rank(risk) {
        risk := faults[i].risk;
      }
    }
    assert faults[..|faults|] == faults;
  }

  function RiskScore(successes: nat, weighted: nat): real {
    if weighted == 0 then 0.0
    else
      assert SatAdd(successes, weighted) > 0;
      weighted as real / SatAdd(successes, weighted) as real
  }

  lemma RiskScoreIsProbability(successes: nat, weighted: nat)
    requires successes <= U32_MAX && weighted <= U32_MAX
    ensures 0.0 <= RiskScore(successes, weighted) <= 1.0
    ensures RiskScore(successes, weighted) == 0.0 <==> weighted == 0
    ensures RiskScore(successes, weighted) == 1.0 <==> weighted == U32_MAX || (successes == 0 && weighted > 0)
    ensures successes + weighted <= 0xFFFF_FFFF ==> RiskScore(successes, weighted) * (successes + weighted) as real == weighted as real
  {
    if weighted > 0 {
      var w, n := weighted as real, SatAdd(successes, weighted) as real;
      DivideWithin(w, n);
    }
  }

  lemma DivideWithin(w: real, n: real)
    requires 0.0 < w <= n
    ensures 0.0 < w / n <= 1.0 && (w / n == 1.0 <==> w == n)
  {
    var q := w / n;
    assert q * n == w;
  }

  lemma {:induction false} NoWeightIffNoFault(faults: seq<Fault>)
    ensures Capped(WeightSum(faults)) == 0 <==> faults == []
  {
    WeightAtLeastCount(faults);
  }

  // ----- the comparison -----

  datatype Verdict = Equivalent | Improved | Violation

  datatype Report = Report(
    verdict: Verdict,
    faults: seq<Fault>,
    improvements: seq<Improvement>,
    successes: nat,
    weighted: nat,
    coveredPolicies: set<string>,
    violatedPolicies: set<string>,
    riskLevel: RiskLevel,
    riskScore: real,
    expectedLoss: LossResult,
    nodesCompared: nat,
    focusEdgesCompared: nat,
    actionsCompared: nat)

  /** Everything that can be reported about a pair of runs. */
  ghost predicate RunFault(source: Run, translated: Run, config: Config, f: Fault) {
    var x := SidesOf(source, translated);
    || FaultIn(x, config, x.source.Keys, f)
    || FocusFault(FocusOrderOf(x.source), translated, config, f)
    || AnnouncementFault(x, x.sourceAnnouncements.Keys, f)
  }

  /** Everything that can count as an improvement. */
  ghost predicate RunImprovement(source: Run, translated: Run, config: Config, i: Improvement) {
    var x := SidesOf(source, translated);
    ImprovementIn(x, config, x.source.Keys, i) || Noted(NewTargetIds(x), TargetNote(), i) || Noted(NewAnnouncementIds(x), AnnouncementNote(x), i)
  }

  ghost function RunImprovementCount(source: Run, translated: Run, config: Config): nat {
    var x := SidesOf(source, translated);
    ImprovementTotal(x, config) + |NewTargetIds(x)| + |NewAnnouncementIds(x)|
  }

  ghost function RunFaultCount(source: Run, translated: Run, config: Config): nat {
    var x := SidesOf(source, translated);
    FaultTotal(x, config) + FocusFaultCount(FocusOrderOf(x.source), translated, config)
    + |x.sourceAnnouncements.Keys - KeptAnnouncements(x, x.sourceAnnouncements.Keys)|
  }

  ghost function RunSuccesses(source: Run, translated: Run, config: Config): nat {
    var x := SidesOf(source, translated);
    SuccessTotal(x, config) + FocusSuccesses(FocusOrderOf(x.source), translated, config)
    + |KeptAnnouncements(x, x.sourceAnnouncements.Keys)|
  }

  /** Every policy under which something succeeded. */
  ghost predicate RunCovers(source: Run, translated: Run, config: Config, policy: string) {
    var x := SidesOf(source, translated);
    || CoversIn(x, config, x.source.Keys, policy)
    || policy in FocusCovered(FocusOrderOf(x.source), translated, config)
    || (policy == ASSISTIVE_POLICY && KeptAnnouncements(x, x.sourceAnnouncements.Keys) != {})
  }

  /** The translation keeps every node, the focus traversal and every announcement. */
  ghost predicate Preserves(source: Run, translated: Run, config: Config) {
    var x := SidesOf(source, translated);
    && (forall id :: id in x.source ==> PreservedAt(x, config, id))
    && FocusKept(FocusOrderOf(x.source), translated, config)
    && (forall id :: id in x.sourceAnnouncements ==> AnnouncementKept(x, id))
  }

  /** The translation adds nothing that counts as an improvement. */
  ghost predicate NothingAdded(source: Run, translated: Run, config: Config) {
    var x := SidesOf(source, translated);
    && (forall id :: id in x.source ==> NotImprovedAt(x, config, id))
    && NewTargetIds(x) == {}
    && x.translatedAnnouncements.Keys <= x.sourceAnnouncements.Keys
  }

  ghost function VerdictOf(source: Run, translated: Run, config: Config): Verdict {
    if !Preserves(source, translated, config) then Violation
    else if NothingAdded(source, translated, config) then Equivalent
    else Improved
  }

  /** The sub-comparisons, in the order in which they run, and what they add up to. */
  method Gather(source: Run, translated: Run, config: Config)
    returns (t: Tally, improvements: seq<Improvement>, successes: nat, covered: set<string>, actionsCompared: nat)
    ensures t.Exact()
    ensures forall f :: f in t.faults <==> RunFault(source, translated, config, f)
    ensures |t.faults| == RunFaultCount(source, translated, config)
    ensures forall i :: i in improvements <==> RunImprovement(source, translated, config, i)
    ensures |improvements| == RunImprovementCount(source, translated, config)
    ensures successes == Capped(RunSuccesses(source, translated, config))
    ensures forall p :: p in covered <==> RunCovers(source, translated, config, p)
    ensures actionsCompared == ActionTotal(SidesOf(source, translated))
  {
    hide FaultIn, FaultTotal, ImprovementIn, ImprovementTotal, CoversIn, FocusCovered, RunCovers, When, SuccessTotal, ActionTotal, FocusFault, FocusFaultCount, FocusSuccesses,
      FocusKept, FocusOrderOf, AnnouncementFault, KeptAnnouncements, Noted, NewTargetIds, NewAnnouncementIds, TargetNote, AnnouncementNote, RunFault,
      RunImprovement, Tally.Exact, NodeMap, ActionMap, AnnouncementMap, SatAdd, Capped, WeightSum, IsFocusOrder;
    var x := SidesOf(source, translated);
    var added, announced, faults, matched;
    t, improvements, successes, covered, actionsCompared := CompareNodes(x, config);
    added := NoteEach(NewTargetIds(x), TargetNote());
    var order := FocusOrder(x.source);
    var focus := CompareFocusGraph(translated, order, config);
    faults, announced, matched := CompareAnnouncements(x);
    RunFaultsGathered(source, translated, config, t.faults, focus.faults, faults);
    RunImprovementsGathered(source, translated, config, improvements, added, announced);
    covered := CoveredGathered(source, translated, config, covered, focus.covered, matched);
    t := RecordAll(t, focus.faults + faults);
    SaturatingSum(SuccessTotal(x, config), FocusSuccesses(order, translated, config), matched);
    successes := SatAdd(SatAdd(successes, focus.successes), Capped(matched));
    improvements := improvements + added + announced;
  }

  lemma RunFaultsGathered(source: Run, translated: Run, config: Config, nodes: seq<Fault>, focus: seq<Fault>, announced: seq<Fault>)
    requires var x := SidesOf(source, translated); forall f :: f in nodes <==> FaultIn(x, config, x.source.Keys, f)
    requires forall f :: f in focus <==> FocusFault(FocusOrderOf(NodeMap(source.nodes)), translated, config, f)
    requires var x := SidesOf(source, translated); forall f :: f in announced <==> AnnouncementFault(x, x.sourceAnnouncements.Keys, f)
    ensures forall f :: f in nodes + (focus + announced) <==> RunFault(source, translated, config, f)
  {
    hide FaultIn, FocusFault, AnnouncementFault, FocusOrderOf, NodeMap, ActionMap, AnnouncementMap;
  }

  method CoveredGathered(source: Run, translated: Run, config: Config, nodes: set<string>, focus: set<string>, matched: nat)
    returns (covered: set<string>)
    requires var x := SidesOf(source, translated); forall p :: p in nodes <==> CoversIn(x, config, x.source.Keys, p)
    requires focus == FocusCovered(FocusOrderOf(NodeMap(source.nodes)), translated, config)
    requires var x := SidesOf(source, translated); matched == |KeptAnnouncements(x, x.sourceAnnouncements.Keys)|
    ensures forall p :: p in covered <==> RunCovers(source, translated, config, p)
  {
    hide CoversIn, FocusCovered, KeptAnnouncements, FocusOrderOf, NodeMap, ActionMap, AnnouncementMap, When;
    covered := nodes + focus + When(matched > 0, ASSISTIVE_POLICY);
  }

  lemma RunImprovementsGathered(source: Run, translated: Run, config: Config, nodes: seq<Improvement>,
                                targets: seq<Improvement>, announced: seq<Improvement>)
    requires var x := SidesOf(source, translated); forall i :: i in nodes <==> ImprovementIn(x, config, x.source.Keys, i)
    requires var x := SidesOf(source, translated); forall i :: i in targets <==> Noted(NewTargetIds(x), TargetNote(), i)
    requires var x := SidesOf(source, translated); forall i :: i in announced <==> Noted(NewAnnouncementIds(x), AnnouncementNote(x), i)
    ensures forall i :: i in nodes + targets + announced <==> RunImprovement(source, translated, config, i)
  {
    hide ImprovementIn, Noted, TargetNote, AnnouncementNote, NewTargetIds, NewAnnouncementIds, NodeMap, ActionMap, AnnouncementMap;
  }

  lemma NoNodeFaultIff(x: Sides, config: Config)
    ensures (forall f :: !FaultIn(x, config, x.source.Keys, f)) <==> forall id :: id in x.source ==> PreservedAt(x, config, id)
  {
    hide NodeFault, NodePreserved;
    forall id | id in x.source ensures (forall f :: !FaultAt(x, config, id, f)) <==> PreservedAt(x, config, id) {
      if id in x.translated {
        NoFaultIffPreserved(x.source[id], x.translated[id], x.actions, config);
        assert forall f :: FaultAt(x, config, id, f) <==> NodeFault(x.source[id], x.translated[id], x.actions, config, f);
      } else {
        assert FaultAt(x, config, id, Dropped(id));
      }
    }
    hide FaultAt, PreservedAt;
    forall id, f | id in x.source && FaultAt(x, config, id, f) ensures FaultIn(x, config, x.source.Keys, f) {
    }
  }

  /** No fault can be found in a pair of runs exactly when the translation preserves the source. */
  lemma NoFaultIffPreserves(source: Run, translated: Run, config: Config)
    ensures (forall f :: !RunFault(source, translated, config, f)) <==> Preserves(source, translated, config)
  {
    var x := SidesOf(source, translated);
    NoNodeFaultIff(x, config);
    NoFaultIffKept(FocusOrderOf(x.source), translated, config);
    NoAnnouncementFaultIff(x);
    hide FaultIn, FocusFault, AnnouncementFault, PreservedAt, FocusKept, AnnouncementKept, FocusOrderOf, SidesOf;
    assert forall f :: FaultIn(x, config, x.source.Keys, f) ==> RunFault(source, translated, config, f);
    assert forall f :: FocusFault(FocusOrderOf(x.source), translated, config, f) ==> RunFault(source, translated, config, f);
    assert forall f :: AnnouncementFault(x, x.sourceAnnouncements.Keys, f) ==> RunFault(source, translated, config, f);
  }

  lemma NoNodeImprovementIff(x: Sides, config: Config)
    ensures (forall i :: !ImprovementIn(x, config, x.source.Keys, i)) <==> forall id :: id in x.source ==> NotImprovedAt(x, config, id)
  {
    hide NodeImprovement, NodeNotImproved;
    forall id | id in x.source ensures (forall i :: !ImprovementAt(x, config, id, i)) <==> NotImprovedAt(x, config, id) {
      if id in x.translated {
        NoImprovementIff(x.source[id], x.translated[id], x.actions, config);
        assert forall i :: ImprovementAt(x, config, id, i) <==> NodeImprovement(x.source[id], x.translated[id], x.actions, config, i);
      }
    }
    hide ImprovementAt, NotImprovedAt;
    forall id, i | id in x.source && ImprovementAt(x, config, id, i) ensures ImprovementIn(x, config, x.source.Keys, i) {
    }
  }

  /** And no improvement exactly when it adds nothing. */
  lemma NoImprovementIffNothingAdded(source: Run, translated: Run, config: Config)
    ensures (forall i :: !RunImprovement(source, translated, config, i)) <==> NothingAdded(source, translated, config)
  {
    var x := SidesOf(source, translated);
    NoNodeImprovementIff(x, config);
    NothingNewIff(x);
    hide ImprovementIn, Noted, TargetNote, AnnouncementNote, NotImprovedAt, NewTargetIds, SidesOf;
    assert forall i :: ImprovementIn(x, config, x.source.Keys, i) || Noted(NewTargetIds(x), TargetNote(), i) || Noted(NewAnnouncementIds(x), AnnouncementNote(x), i)
                       ==> RunImprovement(source, translated, config, i);
  }

  lemma NothingNewIff(x: Sides)
    ensures (forall i :: !Noted(NewTargetIds(x), TargetNote(), i)) <==> NewTargetIds(x) == {}
    ensures (forall i :: !Noted(NewAnnouncementIds(x), AnnouncementNote(x), i)) <==> x.translatedAnnouncements.Keys <= x.sourceAnnouncements.Keys
  {
    forall id | id in NewTargetIds(x) ensures Noted(NewTargetIds(x), TargetNote(), TargetNote()(id)) {
    }
    forall id | id in NewAnnouncementIds(x) ensures Noted(NewAnnouncementIds(x), AnnouncementNote(x), AnnouncementNote(x)(id)) {
    }
    if NewAnnouncementIds(x) == {} {
      forall id | id in x.translatedAnnouncements ensures id in x.sourceAnnouncements {
        assert id !in NewAnnouncementIds(x);
      }
    }
  }

  function Larger(a: nat, b: nat): (r: nat)
    ensures r >= a && r >= b && (r == a || r == b)
  {
    if a >= b then a else b
  }

  /** The first member of an ordered set. */
  method FirstPolicy(policies: set<string>) returns (first: Option<string>)
    ensures if policies == {} then first == None
            else first.Some? && first.value in policies && forall p :: p in policies ==> Leq(first.value, p)
  {
    first := None;
    var todo := policies;
    while todo != {}
      invariant todo <= policies
      invariant if todo == policies then first == None
                else first.Some? && first.value in policies && forall p :: p in policies - todo ==> Leq(first.value, p)
    {
      var p :| p in todo;
      if first == None || !Leq(first.value, p) {
        LeastSoFar(policies - todo, first, p);
        first := Some(p);
      }
      todo := todo - {p};
    }
  }

  lemma LeastSoFar(seen: set<string>, first: Option<string>, p: string)
    requires if first == None then seen == {} else !Leq(first.value, p) && forall q :: q in seen ==> Leq(first.value, q)
    ensures forall q :: q in seen + {p} ==> Leq(p, q)
  {
    LeqIsTotal();
    hide Leq;
    assert Leq(p, p);
    if first.Some? {
      assert Leq(p, first.value);
    }
  }

  /** Where nothing succeeds nothing is covered, and the other way around. */
  lemma CoveredIffSuccess(source: Run, translated: Run, config: Config)
    ensures (forall p :: !RunCovers(source, translated, config, p)) <==> RunSuccesses(source, translated, config) == 0
  {
    var x := SidesOf(source, translated);
    var order := FocusOrderOf(x.source);
    NodesCoverIffSuccess(x, config);
    FocusCoversIffSuccess(order, translated, config);
    hide CoversIn, SuccessTotal, FocusCovered, FocusSuccesses, KeptAnnouncements, FocusOrderOf, SidesOf;
    assert forall p :: CoversIn(x, config, x.source.Keys, p) ==> RunCovers(source, translated, config, p);
    assert forall p :: p in FocusCovered(order, translated, config) ==> RunCovers(source, translated, config, p);
    assert KeptAnnouncements(x, x.sourceAnnouncements.Keys) != {} ==> RunCovers(source, translated, config, ASSISTIVE_POLICY);
  }

  lemma NodesCoverIffSuccess(x: Sides, config: Config)
    ensures (forall p :: !CoversIn(x, config, x.source.Keys, p)) <==> SuccessTotal(x, config) == 0
  {
    hide NodeCovers, NodeSuccesses;
    SumZeroIff(x.source.Keys, SuccessesAt(x, config));
    forall id | id in x.source ensures (forall p :: !CoversAt(x, config, id, p)) <==> SuccessesAt(x, config)(id) == 0 {
      if id in x.translated {
        NothingCoveredIffNoSuccess(x.source[id], x.translated[id], x.actions, config);
        assert forall p :: CoversAt(x, config, id, p) <==> NodeCovers(x.source[id], x.translated[id], x.actions, config, p);
      }
    }
    hide CoversAt, SuccessesAt;
    forall id, p | id in x.source && CoversAt(x, config, id, p) ensures CoversIn(x, config, x.source.Keys, p) {
    }
  }

  lemma FocusCoversIffSuccess(order: seq<NodeId>, translated: Run, config: Config)
    ensures FocusCovered(order, translated, config) == {} <==> FocusSuccesses(order, translated, config) == 0
  {
    var g := GraphOf(translated.focusTransitions);
    SomeStepWalkableIff(order, g);
    SomeTargetNewIff(order, translated.nodes);
    hide SomeStepWalkable, SomeTargetNew, WalkableSteps, NewTargets, GraphOf;
    if config.requireFocusReachability {
      assert FOCUS_POLICY in FocusCovered(order, translated, config) <==> WalkableSteps(order, g) > 0;
      assert IMPROVEMENT_POLICY in FocusCovered(order, translated, config) <==> NewTargets(order, translated.nodes) > 0;
      assert forall p :: p in FocusCovered(order, translated, config) ==> p == FOCUS_POLICY || p == IMPROVEMENT_POLICY;
    }
  }

  method SortFaults(t0: Tally) returns (t: Tally)
    requires t0.Exact()
    ensures t.Exact() && SortedBy(BySeverity(), t.faults) && |t.faults| == |t0.faults| && forall f :: f in t.faults <==> f in t0.faults
  {
    hide BySeverity, WeightSum;
    BySeverityIsTotal();
    SortSorts(BySeverity(), t0.faults);
    SortKeepsElements(BySeverity(), t0.faults);
    var sorted := Sort(BySeverity(), t0.faults);
    SameWeight(sorted, t0.faults);
    assert |sorted| == |multiset(sorted)| == |multiset(t0.faults)| == |t0.faults|;
    t := t0.(faults := sorted);
  }

  method SortImprovements(improvements: seq<Improvement>) returns (sorted: seq<Improvement>)
    ensures SortedBy(ByNode(), sorted) && |sorted| == |improvements| && forall i :: i in sorted <==> i in improvements
  {
    hide ByNode;
    ByNodeIsTotal();
    SortSorts(ByNode(), improvements);
    SortKeepsElements(ByNode(), improvements);
    sorted := Sort(ByNode(), improvements);
    assert |sorted| == |multiset(sorted)| == |multiset(improvements)| == |improvements|;
  }

  /** Risk level, risk score and decision of a tally. */
  method Assess(t: Tally, successes: nat) returns (risk: RiskLevel, score: real, loss: LossResult)
    requires t.Exact() && successes <= U32_MAX
    ensures forall f :: f in t.faults ==> Rank(f.risk) <= Rank(risk)
    ensures if t.faults == [] then risk == Low else exists f :: f in t.faults && f.risk == risk
    ensures score == RiskScore(successes, t.weighted) && 0.0 <= score <= 1.0 && (score == 0.0 <==> t.faults == [])
    ensures loss == ExpectedLossDecision(BUILTIN, successes, t.weighted, loss.claim)
    ensures loss.decision == AutoApprove <==> successes >= 16 + 18 * t.weighted
    ensures loss.claim == None <==> t.faults == []
    ensures loss.claim.Some? ==> loss.claim.value in t.policies && forall p :: p in t.policies ==> Leq(loss.claim.value, p)
  {
    hide WeightSum, RiskScore, Leq, ExpectedLossDecision;
    risk := HighestRisk(t.faults);
    NoWeightIffNoFault(t.faults);
    RiskScoreIsProbability(successes, t.weighted);
    score := RiskScore(successes, t.weighted);
    var claim := FirstPolicy(t.policies);
    BuiltinDecision(successes, t.weighted, claim);
    loss := ExpectedLossDecision(BUILTIN, successes, t.weighted, claim);
    if t.faults != [] {
      assert t.faults[0] in t.faults && t.faults[0].policy in t.policies;
    }
  }

  /** The whole comparison; the decision at its end is spelled out in whole numbers. */
  method CompareRuns(source: Run, translated: Run, config: Config) returns (r: Report)
    ensures forall f :: f in r.faults <==> RunFault(source, translated, config, f)
    ensures |r.faults| == RunFaultCount(source, translated, config)
    ensures r.verdict == VerdictOf(source, translated, config)
    ensures r.verdict == Violation <==> r.faults != []
    ensures forall i :: i in r.improvements <==> RunImprovement(source, translated, config, i)
    ensures |r.improvements| == RunImprovementCount(source, translated, config)
    ensures r.successes == Capped(RunSuccesses(source, translated, config))
    ensures SortedBy(BySeverity(), r.faults) && SortedBy(ByNode(), r.improvements)
    ensures r.weighted == Capped(WeightSum(r.faults))
    ensures forall p :: p in r.coveredPolicies <==> RunCovers(source, translated, config, p)
    ensures r.coveredPolicies == {} <==> r.successes == 0
    ensures forall p :: p in r.violatedPolicies <==> exists f :: f in r.faults && f.policy == p
    ensures forall f :: f in r.faults ==> Rank(f.risk) <= Rank(r.riskLevel)
    ensures if r.faults == [] then r.riskLevel == Low else exists f :: f in r.faults && f.risk == r.riskLevel
    ensures r.riskScore == RiskScore(r.successes, r.weighted) && 0.0 <= r.riskScore <= 1.0
    ensures r.riskScore == 0.0 <==> r.verdict != Violation
    ensures r.expectedLoss == ExpectedLossDecision(BUILTIN, r.successes, r.weighted, r.expectedLoss.claim)
    ensures r.expectedLoss.decision == AutoApprove <==> r.successes >= 16 + 18 * r.weighted
    ensures r.expectedLoss.claim == None <==> r.verdict != Violation
    ensures r.expectedLoss.claim.Some? ==>
              r.expectedLoss.claim.value in r.violatedPolicies
              && forall p :: p in r.violatedPolicies ==> Leq(r.expectedLoss.claim.value, p)
    ensures r.nodesCompared == Larger(|NodeMap(source.nodes)|, |NodeMap(translated.nodes)|)
    ensures r.focusEdgesCompared == Larger(|source.focusTransitions|, |translated.focusTransitions|)
    ensures r.actionsCompared == ActionTotal(SidesOf(source, translated))
  {
    hide RunFault, RunFaultCount, RunImprovement, RunImprovementCount, RunSuccesses, RunCovers, Preserves, NothingAdded, ActionTotal,
      SidesOf, WeightSum, RiskScore, SortedBy, BySeverity, ByNode, Leq, ExpectedLossDecision;
    var t, improvements, successes, covered, actionsCompared := Gather(source, translated, config);
    NoFaultIffPreserves(source, translated, config);
    NoImprovementIffNothingAdded(source, translated, config);
    CoveredIffSuccess(source, translated, config);
    t := SortFaults(t);
    improvements := SortImprovements(improvements);
    NothingIn(t.faults);
    NothingIn(improvements);
    var risk, score, loss := Assess(t, successes);
    var verdict := if t.faults != [] then Violation else if improvements != [] then Improved else Equivalent;
    r := Report(verdict, t.faults, improvements, successes, t.weighted, covered, t.policies, risk, score, loss,
                Larger(|NodeMap(source.nodes)|, |NodeMap(translated.nodes)|),
                Larger(|source.focusTransitions|, |translated.focusTransitions|), actionsCompared);
  }
}
