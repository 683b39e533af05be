/** The decision that counts of successes and weighted failures lead to: the posterior mean, the decision
    boundaries, and the action of least expected loss. */
module ConfidenceModel {
  import opened Options

  /** In the order of increasing caution. */
  datatype Decision = AutoApprove | HumanReview | Reject | HardReject | Rollback | ConservativeFallback {
    function Caution(): nat {
      match this
      case AutoApprove => 0
      case HumanReview => 1
      case Reject => 2
      case HardReject => 3
      case Rollback => 4
      case ConservativeFallback => 5
    }
  }

  /** The loss to expect if it is `right` with probability `p` and `wrong` otherwise. */
  function Expected(p: real, right: real, wrong: real): real {
    p * right + (1.0 - p) * wrong
  }

  datatype Losses = Losses(
    acceptCorrect: real, acceptIncorrect: real,
    holdCorrect: real, holdIncorrect: real,
    rejectCorrect: real, rejectIncorrect: real) {

    function Accept(p: real): real {
      Expected(p, acceptCorrect, acceptIncorrect)
    }

    function Hold(p: real): real {
      Expected(p, holdCorrect, holdIncorrect)
    }

    function Reject(p: real): real {
      Expected(p, rejectIncorrect, rejectCorrect)
    }
  }

  datatype Boundaries = Boundaries(autoApprove: real, reviewLower: real, reject: real, hardReject: real, rollback: real) {
    predicate Ordered() {
      0.0 <= rollback <= hardReject <= reject <= reviewLower <= autoApprove <= 1.0
    }
  }

  datatype Model = Model(alpha: real, beta: real, losses: Losses, boundaries: Boundaries) {
    /** What validation demands of the parts used here. */
    predicate Valid() {
      && alpha > 0.0 && beta > 0.0 && boundaries.Ordered()
      && losses.acceptCorrect >= 0.0 && losses.acceptIncorrect > 0.0 && losses.acceptIncorrect > losses.rejectCorrect
    }
  }

  /** opentui_confidence_model_v1.json */
  const BUILTIN: Model := Model(2.0, 1.0, Losses(0.0, 100.0, 5.0, 10.0, 2.0, 50.0), Boundaries(0.95, 0.70, 0.40, 0.20, 0.15))

  function Mean(m: Model, successes: nat, failures: nat): real
    requires m.Valid()
  {
    (m.alpha + successes as real) / (m.alpha + m.beta + successes as real + failures as real)
  }

  function Decide(b: Boundaries, p: real): Decision {
    if p >= b.autoApprove then AutoApprove
    else if p >= b.reviewLower then HumanReview
    else if p >= b.reject then Reject
    else if p >= b.hardReject then HardReject
    else if p >= b.rollback then Rollback
    else ConservativeFallback
  }

  function LeastLoss(l: Losses, p: real): Decision {
    if l.Accept(p) <= l.Reject(p) && l.Accept(p) <= l.Hold(p) then AutoApprove
    else if l.Hold(p) <= l.Reject(p) then HumanReview
    else Reject
  }

  /** The boundary decision overrides the one of least loss in these cases. */
  function Combined(boundary: Decision, least: Decision): Decision {
    match (boundary, least)
    case (ConservativeFallback, _) => boundary
    case (Rollback, _) => boundary
    case (HardReject, _) => boundary
    case (Reject, AutoApprove) => boundary
    case _ => least
  }

  function DecisionAt(m: Model, p: real): Decision {
    Combined(Decide(m.boundaries, p), LeastLoss(m.losses, p))
  }

  datatype LossResult = LossResult(decision: Decision, mean: real, accept: real, reject: real, hold: real, claim: Option<string>)

  function ExpectedLossDecision(m: Model, successes: nat, failures: nat, claim: Option<string>): LossResult
    requires m.Valid()
  {
    var p := Mean(m, successes, failures);
    LossResult(DecisionAt(m, p), p,
               m.losses.Accept(p), m.losses.Reject(p), m.losses.Hold(p), claim)
  }

  // ----- any model -----

  lemma MulOrder(a: real, b: real, n: real)
    requires n > 0.0
    ensures a * n >= b * n <==> a >= b
  {
    if a < b {
      assert (b - a) * n > 0.0;
    } else {
      assert (a - b) * n >= 0.0;
    }
  }

  /** The mean without the division. */
  lemma MeanAtLeast(m: Model, successes: nat, failures: nat, c: real)
    requires m.Valid()
    ensures Mean(m, successes, failures) >= c <==>
              m.alpha + successes as real >= c * (m.alpha + m.beta + successes as real + failures as real)
  {
    var n := m.alpha + m.beta + successes as real + failures as real;
    assert Mean(m, successes, failures) * n == m.alpha + successes as real;
    MulOrder(Mean(m, successes, failures), c, n);
  }

  /** Every success raises the mean, every failure lowers it, and it is a proper probability. */
  lemma MeanFollowsEvidence(m: Model, successes: nat, failures: nat)
    requires m.Valid()
    ensures 0.0 < Mean(m, successes, failures) < 1.0
    ensures Mean(m, successes + 1, failures) > Mean(m, successes, failures) > Mean(m, successes, failures + 1)
  {
    var a, n := m.alpha + successes as real, m.alpha + m.beta + successes as real + failures as real;
    var p, q, r := Mean(m, successes, failures), Mean(m, successes + 1, failures), Mean(m, successes, failures + 1);
    assert p * n == a && q * (n + 1.0) == a + 1.0 && r * (n + 1.0) == a;
    hide Mean;
    QuotientsOrdered(a, n, p, q, r);
  }

  lemma QuotientsOrdered(a: real, n: real, p: real, q: real, r: real)
    requires 0.0 < a < n && p * n == a && q * (n + 1.0) == a + 1.0 && r * (n + 1.0) == a
    ensures 0.0 < p < 1.0 && q > p > r
  {
    var k := n + 1.0;
    MulOrder(0.0, p, n);
    MulOrder(p, 1.0, n);
    assert 0.0 * n == 0.0 && 1.0 * n == n;
    assert 0.0 < p < 1.0;
    assert p * k == a + p;
    MulOrder(p, q, k);
    MulOrder(r, p, k);
    assert q > p;
  }

  /** The other decision is one of least expected loss among accepting, holding and rejecting. */
  lemma LeastLossIsLeast(l: Losses, p: real)
    ensures var least := match LeastLoss(l, p) case AutoApprove => l.Accept(p) case HumanReview => l.Hold(p) case _ => l.Reject(p);
            least <= l.Accept(p) && least <= l.Hold(p) && least <= l.Reject(p)
  {
  }

  /** The boundary is meant to override whenever it is the more cautious one. It does unless it asks for review where
      accepting has the least loss, or rejects where holding has. */
  lemma MoreCautiousBoundaryWinsIff(m: Model, successes: nat, failures: nat)
    requires m.Valid()
    ensures var p := Mean(m, successes, failures);
            ExpectedLossDecision(m, successes, failures, None).decision.Caution() >= Decide(m.boundaries, p).Caution() <==>
              && !(m.boundaries.reviewLower <= p < m.boundaries.autoApprove && LeastLoss(m.losses, p) == AutoApprove)
              && !(m.boundaries.reject <= p < m.boundaries.reviewLower && LeastLoss(m.losses, p) == HumanReview)
  {
  }

  /** The surer the migration is right, the more accepting gains on holding, and holding on rejecting. */
  predicate GainsInOrder(l: Losses) {
    l.acceptCorrect - l.acceptIncorrect <= l.holdCorrect - l.holdIncorrect <= l.rejectIncorrect - l.rejectCorrect
  }

  /** In the band where the boundary rejects, holding has the least loss first and accepting further up. */
  ghost predicate BandTurns(m: Model) {
    exists p, q :: m.boundaries.reject <= p < q < m.boundaries.reviewLower && TurnsBetween(m.losses, p, q)
  }

  predicate TurnsBetween(l: Losses, p: real, q: real) {
    LeastLoss(l, p) == HumanReview && LeastLoss(l, q) == AutoApprove
  }

  ghost predicate FollowsMean(m: Model) {
    forall p, q :: 0.0 <= p <= q <= 1.0 ==> DecisionAt(m, q).Caution() <= DecisionAt(m, p).Caution()
  }

  lemma GainKeepsOrder(x: real, y: real, u: real, v: real, p: real, q: real)
    requires p <= q && x - y <= u - v && Expected(p, x, y) <= Expected(p, u, v)
    ensures Expected(q, x, y) <= Expected(q, u, v)
  {
    var gain := (u - v) - (x - y);
    assert (q - p) * gain >= 0.0;
    assert p * gain + (v - y) >= 0.0;
    assert q * gain == p * gain + (q - p) * gain;
  }

  lemma LeastLossFollowsMean(l: Losses, p: real, q: real)
    requires GainsInOrder(l) && p <= q
    ensures LeastLoss(l, q).Caution() <= LeastLoss(l, p).Caution()
  {
    hide Expected;
    if l.Accept(p) <= l.Reject(p) {
      GainKeepsOrder(l.acceptCorrect, l.acceptIncorrect, l.rejectIncorrect, l.rejectCorrect, p, q);
    }
    if l.Accept(p) <= l.Hold(p) {
      GainKeepsOrder(l.acceptCorrect, l.acceptIncorrect, l.holdCorrect, l.holdIncorrect, p, q);
    }
    if l.Hold(p) <= l.Reject(p) {
      GainKeepsOrder(l.holdCorrect, l.holdIncorrect, l.rejectIncorrect, l.rejectCorrect, p, q);
    }
  }

  /** A higher mean never makes the decision more cautious, except that the override of acceptance, but not of holding,
      in the band of rejection can turn a review into a rejection. */
  lemma FollowsMeanIff(m: Model)
    requires m.Valid() && GainsInOrder(m.losses)
    ensures FollowsMean(m) <==> !BandTurns(m)
  {
    if BandTurns(m) {
      var p, q :| m.boundaries.reject <= p < q < m.boundaries.reviewLower && TurnsBetween(m.losses, p, q);
      assert DecisionAt(m, p) == HumanReview && DecisionAt(m, q) == Reject;
    } else {
      hide LeastLoss;
      forall p, q | 0.0 <= p <= q <= 1.0 ensures DecisionAt(m, q).Caution() <= DecisionAt(m, p).Caution() {
        LeastLossFollowsMean(m.losses, p, q);
        assert m.boundaries.reject <= p < q < m.boundaries.reviewLower ==> !TurnsBetween(m.losses, p, q);
      }
    }
  }

  /** The built-in model with review only from 0.99 on. */
  const STRICT: Model := BUILTIN.(boundaries := BUILTIN.boundaries.(autoApprove := 1.0, reviewLower := 0.99))

  lemma StrictByMean(p: real)
    requires 0.40 <= p < 0.99
    ensures DecisionAt(STRICT, p) == if p >= 18.0 / 19.0 then Reject else HumanReview
  {
  }

  /** There, seven successes without failure lead to a review, and forty-seven to a rejection. */
  lemma MoreSuccessesCanReject()
    ensures STRICT.Valid() && GainsInOrder(STRICT.losses)
    ensures ExpectedLossDecision(STRICT, 7, 0, None).decision == HumanReview
    ensures ExpectedLossDecision(STRICT, 47, 0, None).decision == Reject
  {
    MeanAtLeast(STRICT, 7, 0, 0.40);
    MeanAtLeast(STRICT, 7, 0, 18.0 / 19.0);
    MeanAtLeast(STRICT, 47, 0, 18.0 / 19.0);
    MeanAtLeast(STRICT, 47, 0, 0.99);
    hide Mean, DecisionAt;
    StrictByMean(Mean(STRICT, 7, 0));
    StrictByMean(Mean(STRICT, 47, 0));
  }

  // ----- the model that is built in -----

  /** What the built-in model decides, in whole numbers: one weighted failure takes eighteen successes to outweigh, and
      plain rejection is never decided. */
  lemma BuiltinDecision(successes: nat, failures: nat, claim: Option<string>)
    ensures BUILTIN.Valid() && ExpectedLossDecision(BUILTIN, successes, failures, claim).claim == claim
    ensures ExpectedLossDecision(BUILTIN, successes, failures, claim).decision ==
              if successes >= 16 + 18 * failures then AutoApprove
              else if 3 * successes + 4 >= 2 * failures then HumanReview
              else if 4 * successes + 7 >= failures then HardReject
              else if 17 * successes + 31 >= 3 * failures then Rollback
              else ConservativeFallback
  {
    var p := Mean(BUILTIN, successes, failures);
    MeanAtLeast(BUILTIN, successes, failures, 18.0 / 19.0);
    MeanAtLeast(BUILTIN, successes, failures, 0.95);
    MeanAtLeast(BUILTIN, successes, failures, 0.70);
    MeanAtLeast(BUILTIN, successes, failures, 0.40);
    MeanAtLeast(BUILTIN, successes, failures, 0.20);
    MeanAtLeast(BUILTIN, successes, failures, 0.15);
    BuiltinByMean(p);
    hide Mean, DecisionAt, Losses.Accept, Losses.Hold, Losses.Reject;
  }

  lemma BuiltinByMean(p: real)
    ensures DecisionAt(BUILTIN, p) ==
              if p >= 18.0 / 19.0 then AutoApprove
              else if p >= 0.40 then HumanReview
              else if p >= 0.20 then HardReject
              else if p >= 0.15 then Rollback
              else ConservativeFallback
  {
  }

  /** More successes never make the built-in decision more cautious, more failures never less. */
  lemma BuiltinFollowsEvidence(successes: nat, failures: nat, moreSuccesses: nat, fewerFailures: nat)
    requires successes <= moreSuccesses && fewerFailures <= failures
    ensures ExpectedLossDecision(BUILTIN, moreSuccesses, fewerFailures, None).decision.Caution()
         <= ExpectedLossDecision(BUILTIN, successes, failures, None).decision.Caution()
  {
    BuiltinDecision(successes, failures, None);
    BuiltinDecision(moreSuccesses, fewerFailures, None);
  }

  /** It approves below its own approval threshold in exactly these cases, for instance after fifty-three successes and
      one failure of weight two. */
  lemma ApprovesBelowThresholdIff(successes: nat, failures: nat)
    ensures ExpectedLossDecision(BUILTIN, successes, failures, None).decision == AutoApprove
            && Mean(BUILTIN, successes, failures) < BUILTIN.boundaries.autoApprove
       <==> 16 + 18 * failures <= successes < 17 + 19 * failures
  {
    BuiltinDecision(successes, failures, None);
    MeanAtLeast(BUILTIN, successes, failures, 0.95);
  }

  /** The losses the built-in model reports: accepting costs 100 if wrong; holding 5 or 10; rejecting 50 if wrong, 2 if not. */
  lemma BuiltinLosses(successes: nat, failures: nat)
    ensures var r := ExpectedLossDecision(BUILTIN, successes, failures, None);
            && r.mean * (3 + successes + failures) as real == (2 + successes) as real
            && r.accept == 100.0 - 100.0 * r.mean && r.hold == 10.0 - 5.0 * r.mean && r.reject == 2.0 + 48.0 * r.mean
  {
    var p := Mean(BUILTIN, successes, failures);
    assert p * (2.0 + 1.0 + successes as real + failures as real) == 2.0 + successes as real;
    hide Mean, DecisionAt;
  }
}
