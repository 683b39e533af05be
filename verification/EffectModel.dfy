/** The part of the canonical effect model that the safety analyzer reads, and the shape of
    what its checkers report. */
module EffectModel {
  import opened Graphs

  datatype ExecutionModel = Command | Subscription | FireAndForget

  datatype CleanupStrategy = NoCleanup | SubscriptionStop | ExplicitAction | AbortInFlight

  datatype Effect = Effect(
    executionModel: ExecutionModel,
    cleanup: CleanupStrategy,
    readSet: set<NodeId>,
    writeSet: set<NodeId>,
    idempotent: bool,
    deterministic: bool)

  /** `constraints` holds `Edge(before, after)`: the first effect must complete before the second. */
  datatype Model = Model(
    effects: map<NodeId, Effect>,
    subscriptions: set<NodeId>,
    constraints: seq<Edge>)

  datatype SafetyProperty =
    | EffectOrderingSafety
    | NoForbiddenSideEffects(forbidden: set<NodeId>)
    | DeterminismGuarantee
    | CleanupCompleteness
    | IdempotencePreservation
    | SingleWriterRule

  datatype Status = Proven | Refuted | Unknown

  datatype Obligation = Obligation(property: SafetyProperty, subject: NodeId)

  datatype Counterexample = Counterexample(property: SafetyProperty, witnessPath: seq<NodeId>)

  datatype CheckResult = CheckResult(
    status: Status,
    obligations: seq<Obligation>,
    counterexamples: seq<Counterexample>)

  /** Exactly one obligation for `property` per subject. */
  ghost predicate ObligationsFor(obligations: seq<Obligation>, property: SafetyProperty, subjects: set<NodeId>) {
    && NoDuplicates(obligations)
    && forall o :: o in obligations <==> o.property == property && o.subject in subjects
  }

  /** No obligation but for `property` and these subjects, and none twice. */
  ghost predicate ObligationsWithin(obligations: seq<Obligation>, property: SafetyProperty, subjects: set<NodeId>) {
    && NoDuplicates(obligations)
    && forall o :: o in obligations ==> o.property == property && o.subject in subjects
  }

  /** One obligation pushed per effect, in whatever order the keys come. */
  method ObligationPerSubject(property: SafetyProperty, subjects: set<NodeId>) returns (obligations: seq<Obligation>)
    ensures ObligationsFor(obligations, property, subjects)
  {
    obligations := [];
    var todo := subjects;
    while todo != {}
      invariant todo <= subjects
      invariant ObligationsFor(obligations, property, subjects - todo)
    {
      var id :| id in todo;
      todo := todo - {id};
      obligations := obligations + [Obligation(property, id)];
    }
  }
}
