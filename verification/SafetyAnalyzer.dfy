/** The remaining property checkers, and the analyzer that runs a list of them and gives one
    overall answer. */
module SafetyAnalyzer {
  import opened Graphs
  import opened EffectModel
  import OrderingSafety
  import IdempotenceSafety

  datatype Config = Config(maxIterations: nat, globalForbidden: set<NodeId>)

  /** The loop the three per-effect checkers share: an obligation per subject, a counterexample per
      subject that breaks the rule. */
  method CheckEach(property: SafetyProperty, subjects: set<NodeId>, breaks: NodeId -> bool) returns (r: CheckResult)
    ensures r.status == if forall id :: id in subjects ==> !breaks(id) then Proven else Refuted
    ensures r.status == Proven <==> r.counterexamples == []
    ensures ObligationsFor(r.obligations, property, subjects)
    ensures NoDuplicates(r.counterexamples)
    ensures forall c :: c in r.counterexamples <==>
              exists id :: id in subjects && breaks(id) && c == Counterexample(property, [id])
  {
    var obligations: seq<Obligation>, cexs: seq<Counterexample> := [], [];
    var todo := subjects;
    while todo != {}
      invariant todo <= subjects
      invariant ObligationsFor(obligations, property, subjects - todo)
      invariant NoDuplicates(cexs)
      invariant forall c :: c in cexs ==>
                  |c.witnessPath| == 1 && c.property == property && c.witnessPath[0] in subjects - todo && breaks(c.witnessPath[0])
      invariant forall id :: id in subjects - todo && breaks(id) ==> Counterexample(property, [id]) in cexs
    {
      var id :| id in todo;
      todo := todo - {id};
      obligations := obligations + [Obligation(property, id)];
      if breaks(id) {
        var c := Counterexample(property, [id]);
        assert c.witnessPath[0] == id;
        cexs := cexs + [c];
      }
    }
    forall c | c in cexs ensures c == Counterexample(property, [c.witnessPath[0]]) {
    }
    assert cexs != [] ==> cexs[0] in cexs;
    r := CheckResult(if cexs == [] then Proven else Refuted, obligations, cexs);
  }

  ghost predicate NoForbiddenWrites(m: Model, forbidden: set<NodeId>) {
    forall id :: id in m.effects ==> m.effects[id].writeSet * forbidden == {}
  }

  function Replayable(m: Model): set<NodeId> {
    set id | id in m.effects && m.effects[id].executionModel != FireAndForget
  }

  function KnownSubscriptions(m: Model): set<NodeId> {
    set id | id in m.subscriptions && id in m.effects
  }

  ghost predicate ReplayDeterministic(m: Model) {
    forall id :: id in m.effects && m.effects[id].executionModel != FireAndForget ==> m.effects[id].deterministic
  }

  ghost predicate SubscriptionsCleanedUp(m: Model) {
    forall id :: id in m.subscriptions && id in m.effects ==> m.effects[id].cleanup != NoCleanup
  }

  /** With nothing forbidden the check returns at once, without obligations. */
  method CheckNoForbiddenWrites(m: Model, forbidden: set<NodeId>) returns (r: CheckResult)
    ensures r.status == if NoForbiddenWrites(m, forbidden) then Proven else Refuted
    ensures r.status == Proven <==> r.counterexamples == []
    ensures ObligationsFor(r.obligations, NoForbiddenSideEffects(forbidden), if forbidden == {} then {} else m.effects.Keys)
    ensures NoDuplicates(r.counterexamples)
    ensures forall c :: c in r.counterexamples <==>
              exists id :: id in m.effects && m.effects[id].writeSet * forbidden != {} &&
                           c == Counterexample(NoForbiddenSideEffects(forbidden), [id])
  {
    if forbidden == {} {
      return CheckResult(Proven, [], []);
    }
    r := CheckEach(NoForbiddenSideEffects(forbidden), m.effects.Keys,
                   id => id in m.effects && m.effects[id].writeSet * forbidden != {});
  }

  method CheckDeterminism(m: Model) returns (r: CheckResult)
    ensures r.status == if ReplayDeterministic(m) then Proven else Refuted
    ensures r.status == Proven <==> r.counterexamples == []
    ensures ObligationsFor(r.obligations, DeterminismGuarantee, Replayable(m))
    ensures NoDuplicates(r.counterexamples)
    ensures forall c :: c in r.counterexamples <==>
              exists id :: id in m.effects && m.effects[id].executionModel != FireAndForget && !m.effects[id].deterministic &&
                           c == Counterexample(DeterminismGuarantee, [id])
  {
    var critical := Replayable(m);
    assert ReplayDeterministic(m) <==> forall id :: id in critical ==> m.effects[id].deterministic by {
      assert forall id :: id in m.effects && m.effects[id].executionModel != FireAndForget ==> id in critical;
    }
    r := CheckEach(DeterminismGuarantee, critical, id => id in m.effects && !m.effects[id].deterministic);
  }

  method CheckCleanupCompleteness(m: Model) returns (r: CheckResult)
    ensures r.status == if SubscriptionsCleanedUp(m) then Proven else Refuted
    ensures r.status == Proven <==> r.counterexamples == []
    ensures ObligationsFor(r.obligations, CleanupCompleteness, KnownSubscriptions(m))
    ensures NoDuplicates(r.counterexamples)
    ensures forall c :: c in r.counterexamples <==>
              exists id :: id in m.subscriptions && id in m.effects && m.effects[id].cleanup == NoCleanup &&
                           c == Counterexample(CleanupCompleteness, [id])
  {
    var known := KnownSubscriptions(m);
    assert SubscriptionsCleanedUp(m) <==> forall id :: id in known ==> m.effects[id].cleanup != NoCleanup by {
      assert forall id :: id in m.subscriptions && id in m.effects ==> id in known;
    }
    r := CheckEach(CleanupCompleteness, known, id => id in m.effects && m.effects[id].cleanup == NoCleanup);
  }

  type WriterIndex = map<NodeId, seq<NodeId>>

  ghost predicate Writes(m: Model, id: NodeId, v: NodeId) {
    id in m.effects && v in m.effects[id].writeSet
  }

  /** `list` names the effects among `ids` that write `v`, each once. */
  ghost predicate ListsWriters(m: Model, ids: set<NodeId>, v: NodeId, list: seq<NodeId>) {
    NoDuplicates(list) && forall id :: id in list <==> id in ids && Writes(m, id, v)
  }

  ghost predicate Indexes(m: Model, ids: set<NodeId>, index: WriterIndex) {
    forall v :: ListsWriters(m, ids, v, if v in index then index[v] else [])
  }

  method IndexWriters(m: Model) returns (index: WriterIndex)
    ensures Indexes(m, m.effects.Keys, index)
  {
    index := map[];
    var todo := m.effects.Keys;
    while todo != {}
      invariant todo <= m.effects.Keys
      invariant Indexes(m, m.effects.Keys - todo, index)
    {
      var id :| id in todo;
      index := IndexOne(m, m.effects.Keys - todo, id, index);
      todo := todo - {id};
      assert m.effects.Keys - todo == m.effects.Keys - (todo + {id}) + {id};
    }
    assert m.effects.Keys - todo == m.effects.Keys;
  }

  /** `writers.entry(state_id).or_default().push(id)` for every variable one effect writes. */
  method IndexOne(m: Model, ghost done: set<NodeId>, id: NodeId, index0: WriterIndex) returns (index: WriterIndex)
    requires id in m.effects && id !in done && Indexes(m, done, index0)
    ensures Indexes(m, done + {id}, index)
  {
    var written := m.effects[id].writeSet;
    index := map v | v in index0.Keys + written ::
               (if v in index0 then index0[v] else []) + (if v in written then [id] else []);
    forall v ensures ListsWriters(m, done + {id}, v, if v in index then index[v] else []) {
      assert ListsWriters(m, done, v, if v in index0 then index0[v] else []);
      assert Writes(m, id, v) <==> v in written;
    }
  }

  ghost predicate Contested(m: Model, v: NodeId) {
    exists a, b :: a != b && Writes(m, a, v) && Writes(m, b, v)
  }

  ghost predicate SingleWriters(m: Model) {
    forall v :: !Contested(m, v)
  }

  lemma LongEntryIsContested(m: Model, index: WriterIndex, v: NodeId)
    requires Indexes(m, m.effects.Keys, index)
    ensures v in index && |index[v]| > 1 <==> Contested(m, v)
  {
    var list := if v in index then index[v] else [];
    assert ListsWriters(m, m.effects.Keys, v, list);
    if |list| > 1 {
      assert Writes(m, list[0], v) && Writes(m, list[1], v);
    }
    if Contested(m, v) {
      var a, b :| a != b && Writes(m, a, v) && Writes(m, b, v);
      var i :| 0 <= i < |list| && list[i] == a;
      var j :| 0 <= j < |list| && list[j] == b;
    }
  }

  /** One counterexample per contested state variable; `states[i]` is the variable the i-th is about. */
  method CheckSingleWriter(m: Model) returns (r: CheckResult, ghost states: seq<NodeId>)
    ensures r.status == if SingleWriters(m) then Proven else Refuted
    ensures r.status == Proven <==> r.counterexamples == []
    ensures ObligationsFor(r.obligations, SingleWriterRule, m.effects.Keys)
    ensures NoDuplicates(states) && forall v :: v in states <==> Contested(m, v)
    ensures |r.counterexamples| == |states|
    ensures forall i :: 0 <= i < |states| ==>
              && r.counterexamples[i].property == SingleWriterRule
              && ListsWriters(m, m.effects.Keys, states[i], r.counterexamples[i].witnessPath)
  {
    var obligations := ObligationPerSubject(SingleWriterRule, m.effects.Keys);
    var index := IndexWriters(m);
    var cexs: seq<Counterexample> := [];
    states := [];
    var todo := index.Keys;
    while todo != {}
      invariant todo <= index.Keys
      invariant NoDuplicates(states) && |cexs| == |states|
      invariant forall v :: v in states <==> v in index.Keys - todo && Contested(m, v)
      invariant forall i :: 0 <= i < |states| ==>
                  && cexs[i].property == SingleWriterRule
                  && ListsWriters(m, m.effects.Keys, states[i], cexs[i].witnessPath)
    {
      var v :| v in todo;
      todo := todo - {v};
      LongEntryIsContested(m, index, v);
      assert ListsWriters(m, m.effects.Keys, v, index[v]);
      if |index[v]| > 1 {
        cexs := cexs + [Counterexample(SingleWriterRule, index[v])];
        states := states + [v];
      }
    }
    forall v | Contested(m, v) ensures v in states {
      LongEntryIsContested(m, index, v);
    }
    assert cexs != [] ==> states[0] in states;
    r := CheckResult(if cexs == [] then Proven else Refuted, obligations, cexs);
  }

  datatype Verdict = Verdict(property: SafetyProperty, status: Status, obligationCount: nat)

  datatype AnalysisResult = AnalysisResult(
    verdicts: map<string, Verdict>,
    obligations: seq<Obligation>,
    counterexamples: seq<Counterexample>,
    allSafe: bool)

  function PropertyKey(p: SafetyProperty): string {
    match p
    case EffectOrderingSafety => "effect_ordering_safety"
    case NoForbiddenSideEffects(_) => "no_forbidden_side_effects"
    case DeterminismGuarantee => "determinism_guarantee"
    case CleanupCompleteness => "cleanup_completeness"
    case IdempotencePreservation => "idempotence_preservation"
    case SingleWriterRule => "single_writer_rule"
  }

  /** What each property means for the model, with no reference to how it is checked. */
  ghost predicate Holds(m: Model, p: SafetyProperty, config: Config) {
    match p
    case EffectOrderingSafety => OrderingSafety.NoReachableCycle(GraphOf(m.constraints), m.effects.Keys)
    case NoForbiddenSideEffects(forbidden) => NoForbiddenWrites(m, forbidden + config.globalForbidden)
    case DeterminismGuarantee => ReplayDeterministic(m)
    case CleanupCompleteness => SubscriptionsCleanedUp(m)
    case IdempotencePreservation => IdempotenceSafety.IdempotencePreserved(m)
    case SingleWriterRule => SingleWriters(m)
  }

  /** Only the idempotence check can give up, and only for want of budget. */
  ghost predicate Decided(m: Model, p: SafetyProperty, config: Config) {
    p == IdempotencePreservation ==> IdempotenceSafety.BudgetSuffices(m, config.maxIterations)
  }

  ghost function StatusOf(m: Model, p: SafetyProperty, config: Config): Status {
    if !Decided(m, p, config) then Unknown else if Holds(m, p, config) then Proven else Refuted
  }

  /** The property as the reports name it: the global list is merged into the forbidden variables. */
  function Checked(p: SafetyProperty, config: Config): SafetyProperty {
    if p.NoForbiddenSideEffects? then NoForbiddenSideEffects(p.forbidden + config.globalForbidden) else p
  }

  /** The effects a property says something about. */
  ghost function Subjects(m: Model, p: SafetyProperty, config: Config): set<NodeId> {
    match p
    case EffectOrderingSafety => m.effects.Keys
    case NoForbiddenSideEffects(forbidden) => if forbidden + config.globalForbidden == {} then {} else m.effects.Keys
    case DeterminismGuarantee => Replayable(m)
    case CleanupCompleteness => KnownSubscriptions(m)
    case IdempotencePreservation => set id | id in m.effects && m.effects[id].idempotent
    case SingleWriterRule => m.effects.Keys
  }

  /** What the report on one property says, whichever check made it. */
  ghost predicate ReportOf(m: Model, p: SafetyProperty, config: Config, r: CheckResult) {
    && r.status == StatusOf(m, p, config)
    && (r.status == Proven ==> r.counterexamples == []) && (r.status == Refuted ==> r.counterexamples != [])
    && (forall c :: c in r.counterexamples ==> c.property == Checked(p, config))
    && ObligationsWithin(r.obligations, Checked(p, config), Subjects(m, p, config))
    && (r.status != Unknown ==> ObligationsFor(r.obligations, Checked(p, config), Subjects(m, p, config)))
  }

  method CheckProperty(m: Model, p: SafetyProperty, config: Config) returns (r: CheckResult)
    ensures ReportOf(m, p, config, r)
  {
    match p {
      case EffectOrderingSafety =>
        ghost var schedule;
        r, schedule := OrderingSafety.CheckOrderingSafety(m);
      case NoForbiddenSideEffects(forbidden) =>
        r := CheckNoForbiddenWrites(m, forbidden + config.globalForbidden);
      case DeterminismGuarantee =>
        r := CheckDeterminism(m);
      case CleanupCompleteness =>
        r := CheckCleanupCompleteness(m);
      case IdempotencePreservation =>
        r := IdempotenceSafety.CheckIdempotencePreservation(m, config.maxIterations);
      case SingleWriterRule =>
        ghost var states;
        r, states := CheckSingleWriter(m);
    }
  }

  /** Verdicts are stored by key, so a later property with the same key replaces an earlier one. */
  ghost predicate LastOfItsKey(properties: seq<SafetyProperty>, i: nat)
    requires i < |properties|
  {
    forall j :: i < j < |properties| ==> PropertyKey(properties[j]) != PropertyKey(properties[i])
  }

  /** The overall answer of `AnalyzeSafety`. */
  ghost predicate AllLastHold(m: Model, properties: seq<SafetyProperty>, config: Config) {
    forall i :: 0 <= i < |properties| && LastOfItsKey(properties, i) ==>
                  Decided(m, properties[i], config) && Holds(m, properties[i], config)
  }

  ghost predicate ReportsOf(m: Model, properties: seq<SafetyProperty>, config: Config, reports: seq<CheckResult>) {
    |reports| == |properties| && forall i :: 0 <= i < |reports| ==> ReportOf(m, properties[i], config, reports[i])
  }

  /** The verdict map after `properties`: for every key, the outcome of the last property with it. */
  ghost predicate VerdictsOf(properties: seq<SafetyProperty>, reports: seq<CheckResult>, verdicts: map<string, Verdict>) {
    && |reports| == |properties|
    && (forall k :: k in verdicts <==> exists i :: 0 <= i < |properties| && PropertyKey(properties[i]) == k)
    && forall i :: 0 <= i < |properties| && LastOfItsKey(properties, i) ==>
         verdicts[PropertyKey(properties[i])] == Verdict(properties[i], reports[i].status, |reports[i].obligations|)
  }

  ghost function AllObligations(reports: seq<CheckResult>): seq<Obligation> {
    if |reports| == 0 then [] else AllObligations(reports[..|reports| - 1]) + reports[|reports| - 1].obligations
  }

  ghost function AllCounterexamples(reports: seq<CheckResult>): seq<Counterexample> {
    if |reports| == 0 then [] else AllCounterexamples(reports[..|reports| - 1]) + reports[|reports| - 1].counterexamples
  }

  lemma OneMoreVerdict(properties: seq<SafetyProperty>, reports: seq<CheckResult>, verdicts: map<string, Verdict>,
                       p: SafetyProperty, r: CheckResult)
    requires VerdictsOf(properties, reports, verdicts)
    ensures VerdictsOf(properties + [p], reports + [r], verdicts[PropertyKey(p) := Verdict(p, r.status, |r.obligations|)])
  {
    hide PropertyKey;
    var longer, verdicts' := properties + [p], verdicts[PropertyKey(p) := Verdict(p, r.status, |r.obligations|)];
    forall k | k in verdicts' ensures exists i :: 0 <= i < |longer| && PropertyKey(longer[i]) == k {
      if k == PropertyKey(p) {
        assert longer[|properties|] == p;
      } else {
        var i :| 0 <= i < |properties| && PropertyKey(properties[i]) == k;
        assert longer[i] == properties[i];
      }
    }
    forall i | 0 <= i < |longer| && LastOfItsKey(longer, i)
      ensures verdicts'[PropertyKey(longer[i])] == Verdict(longer[i], (reports + [r])[i].status, |(reports + [r])[i].obligations|)
    {
      if i < |properties| {
        assert PropertyKey(longer[|properties|]) != PropertyKey(longer[i]);
        assert forall j :: i < j < |properties| ==> properties[j] == longer[j];
        assert LastOfItsKey(properties, i);
      }
    }
  }

  lemma AllProvenIffLastHold(m: Model, properties: seq<SafetyProperty>, config: Config, reports: seq<CheckResult>,
                             verdicts: map<string, Verdict>)
    requires ReportsOf(m, properties, config, reports) && VerdictsOf(properties, reports, verdicts)
    ensures (forall k :: k in verdicts ==> verdicts[k].status == Proven) <==> AllLastHold(m, properties, config)
  {
    hide Decided, Holds;
    forall k | k in verdicts
      ensures exists i :: 0 <= i < |properties| && LastOfItsKey(properties, i) && PropertyKey(properties[i]) == k
    {
      var i := LastWithKey(properties, k);
    }
    forall i | 0 <= i < |properties| ensures PropertyKey(properties[i]) in verdicts {
    }
    forall i | 0 <= i < |properties| ensures reports[i].status == Proven <==> Decided(m, properties[i], config) && Holds(m, properties[i], config) {
      assert ReportOf(m, properties[i], config, reports[i]);
    }
  }

  /** `reports[i]` is what the check of the i-th property returned. */
  method AnalyzeSafety(m: Model, properties: seq<SafetyProperty>, config: Config)
    returns (r: AnalysisResult, ghost reports: seq<CheckResult>)
    ensures ReportsOf(m, properties, config, reports)
    ensures VerdictsOf(properties, reports, r.verdicts)
    ensures r.obligations == AllObligations(reports) && r.counterexamples == AllCounterexamples(reports)
    ensures r.allSafe <==> AllLastHold(m, properties, config)
    ensures r.counterexamples == [] ==> forall p :: p in properties && Decided(m, p, config) ==> Holds(m, p, config)
  {
    hide ReportOf, VerdictsOf, AllLastHold, Decided, Holds;
    var verdicts: map<string, Verdict> := map[];
    var obligations: seq<Obligation>, cexs: seq<Counterexample> := [], [];
    reports := [];
    assert VerdictsOf([], [], verdicts) by {
      NoVerdict();
    }
    for n := 0 to |properties|
      invariant ReportsOf(m, properties[..n], config, reports) && VerdictsOf(properties[..n], reports, verdicts)
      invariant obligations == AllObligations(reports) && cexs == AllCounterexamples(reports)
    {
      var p := properties[n];
      var c := CheckProperty(m, p, config);
      OneMoreVerdict(properties[..n], reports, verdicts, p, c);
      verdicts := verdicts[PropertyKey(p) := Verdict(p, c.status, |c.obligations|)];
      obligations := obligations + c.obligations;
      cexs := cexs + c.counterexamples;
      assert properties[..n + 1] == properties[..n] + [p] && (reports + [c])[..|reports|] == reports;
      reports := reports + [c];
    }
    assert properties[..|properties|] == properties;
    var allSafe := forall k :: k in verdicts ==> verdicts[k].status == Proven;
    AllProvenIffLastHold(m, properties, config, reports, verdicts);
    NoCounterexampleNoRefutation(m, properties, config, reports);
    r := AnalysisResult(verdicts, obligations, cexs, allSafe);
  }

  lemma {:induction false} NoneInAnyReport(reports: seq<CheckResult>)
    requires AllCounterexamples(reports) == []
    ensures forall i :: 0 <= i < |reports| ==> reports[i].counterexamples == []
  {
    if |reports| > 0 {
      NoneInAnyReport(reports[..|reports| - 1]);
      assert forall i :: 0 <= i < |reports| - 1 ==> reports[i] == reports[..|reports| - 1][i];
    }
  }

  lemma NoCounterexampleNoRefutation(m: Model, properties: seq<SafetyProperty>, config: Config, reports: seq<CheckResult>)
    requires ReportsOf(m, properties, config, reports)
    ensures AllCounterexamples(reports) == [] ==> forall p :: p in properties && Decided(m, p, config) ==> Holds(m, p, config)
  {
    hide Decided, Holds;
    if AllCounterexamples(reports) == [] {
      NoneInAnyReport(reports);
      forall p | p in properties && Decided(m, p, config) ensures Holds(m, p, config) {
        var i :| 0 <= i < |properties| && properties[i] == p;
        assert ReportOf(m, p, config, reports[i]);
      }
    }
  }

  lemma NoVerdict()
    ensures VerdictsOf([], [], map[])
  {
  }

  lemma {:induction false} LastWithKey(properties: seq<SafetyProperty>, k: string) returns (i: nat)
    requires exists i :: 0 <= i < |properties| && PropertyKey(properties[i]) == k
    ensures i < |properties| && LastOfItsKey(properties, i) && PropertyKey(properties[i]) == k
  {
    hide PropertyKey;
    var n := |properties| - 1;
    if PropertyKey(properties[n]) == k {
      i := n;
    } else {
      i := LastWithKey(properties[..n], k);
      forall j | i < j < |properties| ensures PropertyKey(properties[j]) != k {
        if j < n {
          assert properties[..n][j] == properties[j];
        }
      }
    }
  }

  ghost predicate DistinctKeys(properties: seq<SafetyProperty>) {
    forall i, j :: 0 <= i < j < |properties| ==> PropertyKey(properties[i]) != PropertyKey(properties[j])
  }

  function StandardProperties(config: Config): seq<SafetyProperty> {
    [EffectOrderingSafety, NoForbiddenSideEffects(config.globalForbidden), DeterminismGuarantee,
     CleanupCompleteness, IdempotencePreservation, SingleWriterRule]
  }

  /** What a caller would take the overall answer for. */
  ghost predicate AllRequestedHold(m: Model, properties: seq<SafetyProperty>, config: Config) {
    forall p :: p in properties ==> Decided(m, p, config) && Holds(m, p, config)
  }

  /** Every list of forbidden variables is covered by the last such list and the global one. */
  ghost predicate LastListCovers(properties: seq<SafetyProperty>, config: Config) {
    forall i, j :: 0 <= i < |properties| && 0 <= j < |properties| && LastOfItsKey(properties, j)
                   && properties[i].NoForbiddenSideEffects? && properties[j].NoForbiddenSideEffects? ==>
      properties[i].forbidden <= properties[j].forbidden + config.globalForbidden
  }

  lemma CoveredListsHold(m: Model, properties: seq<SafetyProperty>, config: Config)
    requires LastListCovers(properties, config) && AllLastHold(m, properties, config)
    ensures AllRequestedHold(m, properties, config)
  {
    forall p | p in properties ensures Decided(m, p, config) && Holds(m, p, config) {
      var i :| 0 <= i < |properties| && properties[i] == p;
      var j := LastWithKey(properties, PropertyKey(p));
      assert Decided(m, properties[j], config) && Holds(m, properties[j], config);
      if p.NoForbiddenSideEffects? {
        assert p.forbidden + config.globalForbidden <= properties[j].forbidden + config.globalForbidden;
      } else {
        assert properties[j] == p;
      }
    }
  }

  /** One effect that writes one variable and breaks no other rule. */
  function OneWriter(v: NodeId): Model {
    Model(map["" := Effect(Command, NoCleanup, {}, {v}, false, true)], {}, [])
  }

  lemma OneWriterIsSafe(v: NodeId, config: Config)
    ensures forall p: SafetyProperty :: !p.NoForbiddenSideEffects? ==> Decided(OneWriter(v), p, config) && Holds(OneWriter(v), p, config)
    ensures forall f :: Holds(OneWriter(v), NoForbiddenSideEffects(f), config) <==> v !in f + config.globalForbidden
  {
    var m := OneWriter(v);
    assert OrderingSafety.NoReachableCycle(GraphOf(m.constraints), m.effects.Keys) by {
      assert forall c :: !IsCycle(GraphOf(m.constraints), c);
    }
    assert forall id :: !IdempotenceSafety.IdempotentEffect(m, id);
    assert forall f: set<NodeId> :: {v} * f == {} <==> v !in f by {
      forall f: set<NodeId> ensures {v} * f == {} <==> v !in f {
        assert v in f ==> v in {v} * f;
      }
    }
    assert m.effects[""].writeSet == {v};
  }

  lemma UncoveredListFails(properties: seq<SafetyProperty>, config: Config, i: nat, j: nat, v: NodeId) returns (m: Model)
    requires i < |properties| && j < |properties| && LastOfItsKey(properties, j)
    requires properties[i].NoForbiddenSideEffects? && properties[j].NoForbiddenSideEffects?
    requires v in properties[i].forbidden && v !in properties[j].forbidden + config.globalForbidden
    ensures AllLastHold(m, properties, config) && !AllRequestedHold(m, properties, config)
  {
    m := OneWriter(v);
    OneWriterIsSafe(v, config);
    hide Holds, OneWriter;
    forall k | 0 <= k < |properties| && LastOfItsKey(properties, k)
      ensures Decided(m, properties[k], config) && Holds(m, properties[k], config)
    {
      if properties[k].NoForbiddenSideEffects? {
        assert k == j by {
          assert PropertyKey(properties[k]) == PropertyKey(properties[j]);
        }
        assert properties[k] == NoForbiddenSideEffects(properties[j].forbidden);
      }
    }
    assert properties[i] == NoForbiddenSideEffects(properties[i].forbidden) && properties[i] in properties;
  }

  /** `all_safe` means, on every model, that every requested property holds, exactly when the last list of forbidden
      variables covers, with the global one, all the lists before it. */
  lemma AllSafeMeansAllHoldIff(properties: seq<SafetyProperty>, config: Config)
    ensures (forall m :: AllLastHold(m, properties, config) ==> AllRequestedHold(m, properties, config))
       <==> LastListCovers(properties, config)
  {
    hide AllLastHold, AllRequestedHold;
    if LastListCovers(properties, config) {
      forall m | AllLastHold(m, properties, config) ensures AllRequestedHold(m, properties, config) {
        CoveredListsHold(m, properties, config);
      }
    } else {
      var i, j :| 0 <= i < |properties| && 0 <= j < |properties| && LastOfItsKey(properties, j)
                  && properties[i].NoForbiddenSideEffects? && properties[j].NoForbiddenSideEffects?
                  && !(properties[i].forbidden <= properties[j].forbidden + config.globalForbidden);
      var v :| v in properties[i].forbidden && v !in properties[j].forbidden + config.globalForbidden;
      var m := UncoveredListFails(properties, config, i, j, v);
    }
  }

  /** The smallest lists for which it does not: whenever the first of two is refuted and the second proven,
      `all_safe` is still true. */
  lemma RepeatedKeyHidesRefutation(m: Model, f: set<NodeId>, g: set<NodeId>, config: Config)
    requires NoForbiddenWrites(m, g + config.globalForbidden) && !NoForbiddenWrites(m, f + config.globalForbidden)
    ensures AllLastHold(m, [NoForbiddenSideEffects(f), NoForbiddenSideEffects(g)], config)
    ensures !Holds(m, NoForbiddenSideEffects(f), config)
  {
    var ps := [NoForbiddenSideEffects(f), NoForbiddenSideEffects(g)];
    assert !LastOfItsKey(ps, 0) by {
      assert PropertyKey(ps[1]) == PropertyKey(ps[0]);
    }
  }

  /** With distinct keys the condition always holds. */
  lemma DistinctKeysMakeItExact(m: Model, properties: seq<SafetyProperty>, config: Config)
    requires DistinctKeys(properties)
    ensures AllLastHold(m, properties, config) <==> AllRequestedHold(m, properties, config)
  {
    assert forall i :: 0 <= i < |properties| ==> LastOfItsKey(properties, i);
    assert forall i :: 0 <= i < |properties| ==> properties[i] in properties;
  }

  /** The overall answer for the standard list is exactly the conjunction of the six properties. */
  method AnalyzeAllSafety(m: Model, config: Config) returns (r: AnalysisResult)
    ensures r.allSafe <==>
              && OrderingSafety.NoReachableCycle(GraphOf(m.constraints), m.effects.Keys)
              && NoForbiddenWrites(m, config.globalForbidden)
              && ReplayDeterministic(m)
              && SubscriptionsCleanedUp(m)
              && IdempotenceSafety.BudgetSuffices(m, config.maxIterations)
              && IdempotenceSafety.IdempotencePreserved(m)
              && SingleWriters(m)
  {
    var ps := StandardProperties(config);
    ghost var reports;
    r, reports := AnalyzeSafety(m, ps, config);
    StandardListIsExact(m, config);
  }

  lemma StandardListIsExact(m: Model, config: Config)
    ensures AllLastHold(m, StandardProperties(config), config) <==>
              && OrderingSafety.NoReachableCycle(GraphOf(m.constraints), m.effects.Keys)
              && NoForbiddenWrites(m, config.globalForbidden)
              && ReplayDeterministic(m)
              && SubscriptionsCleanedUp(m)
              && IdempotenceSafety.BudgetSuffices(m, config.maxIterations)
              && IdempotenceSafety.IdempotencePreserved(m)
              && SingleWriters(m)
  {
    hide OrderingSafety.NoReachableCycle, NoForbiddenWrites, ReplayDeterministic, SubscriptionsCleanedUp, SingleWriters,
      IdempotenceSafety.BudgetSuffices, IdempotenceSafety.IdempotencePreserved, AllLastHold, LastOfItsKey;
    var ps := StandardProperties(config);
    assert config.globalForbidden + config.globalForbidden == config.globalForbidden;
    DistinctKeysMakeItExact(m, ps, config);
    hide PropertyKey;
    assert |ps| == 6;
    assert ps[0] in ps && ps[1] in ps && ps[2] in ps && ps[3] in ps && ps[4] in ps && ps[5] in ps;
    assert forall p :: p in ps ==> p == ps[0] || p == ps[1] || p == ps[2] || p == ps[3] || p == ps[4] || p == ps[5];
  }

  // ----- the properties in terms of the model's fields -----

  /** No constraint cycle can be reached from an effect; nobody writes what is forbidden; what can be replayed is
      deterministic; subscriptions have a cleanup; no idempotent effect comes after another that is not; no variable has
      two writers. */
  ghost predicate HoldsOnFields(m: Model, p: SafetyProperty, config: Config) {
    match p
    case EffectOrderingSafety =>
      forall c, id :: IsCycle(GraphOf(m.constraints), c) && id in m.effects ==> !Reaches(GraphOf(m.constraints), id, c[0])
    case NoForbiddenSideEffects(forbidden) =>
      forall id, v :: id in m.effects && v in m.effects[id].writeSet ==> v !in forbidden && v !in config.globalForbidden
    case DeterminismGuarantee =>
      forall id :: id in m.effects && (m.effects[id].executionModel == Command || m.effects[id].executionModel == Subscription) ==>
                     m.effects[id].deterministic
    case CleanupCompleteness =>
      forall id :: id in m.effects && id in m.subscriptions ==>
                     m.effects[id].cleanup == SubscriptionStop || m.effects[id].cleanup == ExplicitAction || m.effects[id].cleanup == AbortInFlight
    case IdempotencePreservation =>
      forall id, x :: id in m.effects && x in m.effects && m.effects[id].idempotent && Reaches(GraphOf(m.constraints), x, id) ==>
                        m.effects[x].idempotent
    case SingleWriterRule =>
      forall a, b, v :: a in m.effects && b in m.effects && v in m.effects[a].writeSet && v in m.effects[b].writeSet ==> a == b
  }

  lemma HoldsMeans(m: Model, p: SafetyProperty, config: Config)
    ensures Holds(m, p, config) <==> HoldsOnFields(m, p, config)
  {
    match p
    case EffectOrderingSafety => OrderingMeans(m, config);
    case NoForbiddenSideEffects(forbidden) => ForbiddenMeans(m, forbidden, config);
    case DeterminismGuarantee =>
    case CleanupCompleteness =>
    case IdempotencePreservation => IdempotenceMeans(m, config);
    case SingleWriterRule => SingleWriterMeans(m, config);
  }

  lemma OrderingMeans(m: Model, config: Config)
    ensures Holds(m, EffectOrderingSafety, config) <==> HoldsOnFields(m, EffectOrderingSafety, config)
  {
    hide GraphOf, IsCycle, Reaches;
  }

  lemma ForbiddenMeans(m: Model, forbidden: set<NodeId>, config: Config)
    ensures Holds(m, NoForbiddenSideEffects(forbidden), config) <==> HoldsOnFields(m, NoForbiddenSideEffects(forbidden), config)
  {
    var all := forbidden + config.globalForbidden;
    forall id | id in m.effects ensures m.effects[id].writeSet * all == {} <==> forall v :: v in m.effects[id].writeSet ==> v !in all {
      if v :| v in m.effects[id].writeSet && v in all {
        assert v in m.effects[id].writeSet * all;
      }
    }
  }

  lemma IdempotenceMeans(m: Model, config: Config)
    ensures Holds(m, IdempotencePreservation, config) <==> HoldsOnFields(m, IdempotencePreservation, config)
  {
    forall id, x ensures IdempotenceSafety.Violates(m, id, x) <==>
                           x != id && Reaches(GraphOf(m.constraints), x, id) && x in m.effects && !m.effects[x].idempotent {
      IdempotenceSafety.ViolatesMeans(m, id, x);
    }
    hide GraphOf, Reaches, IdempotenceSafety.Violates;
  }

  lemma SingleWriterMeans(m: Model, config: Config)
    ensures Holds(m, SingleWriterRule, config) <==> HoldsOnFields(m, SingleWriterRule, config)
  {
    if Holds(m, SingleWriterRule, config) {
      forall a, b, v | a in m.effects && b in m.effects && v in m.effects[a].writeSet && v in m.effects[b].writeSet ensures a == b {
        assert !Contested(m, v);
        assert Writes(m, a, v) && Writes(m, b, v);
      }
    }
  }
}
