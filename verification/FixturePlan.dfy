/** Fixture planning and generation: seeds drawn in order, scenarios split in order, totals that agree. */
module FixturePlan {
  import opened SetSums
  import opened Xorshift
  import opened ScenarioText
  import opened Options

  datatype Impact = High | Medium | Low

  datatype RiskClass = LowRisk | MediumRisk | HighRisk | CriticalRisk

  datatype BlindSpot = BlindSpot(category: string, dimension: string, impact: Impact)

  datatype Scenario = Scenario(
    id: string, name: string, category: string, dimension: string, risk: RiskClass, seed: Word, description: string)

  function ImpactToRisk(impact: Impact): RiskClass {
    match impact
    case High => HighRisk
    case Medium => MediumRisk
    case Low => LowRisk
  }

  function ScenarioFor(letters: CharClass, spot: BlindSpot, seed: Word): Scenario {
    Scenario(Id(letters, spot.dimension, seed), Name(spot.dimension), spot.category, spot.dimension, ImpactToRisk(spot.impact), seed,
             Description(spot.category, spot.dimension))
  }

  // ----- planning -----

  predicate Planned(highOnly: bool, spot: BlindSpot) {
    highOnly ==> spot.impact == High
  }

  function PlannedSpots(highOnly: bool, spots: seq<BlindSpot>): seq<BlindSpot> {
    if spots == [] then []
    else
      var before, last := spots[..|spots| - 1], spots[|spots| - 1];
      PlannedSpots(highOnly, before) + if Planned(highOnly, last) then [last] else []
  }

  /** The k-th planned spot gets the k-th draw. */
  ghost predicate IsPlan(letters: CharClass, plan: seq<Scenario>, spots: seq<BlindSpot>, base: Word) {
    && |plan| == |spots|
    && forall k :: 0 <= k < |plan| ==> plan[k] == ScenarioFor(letters, spots[k], After(k + 1, Seeded(base)))
  }

  lemma EmptyPlan(letters: CharClass, base: Word)
    ensures IsPlan(letters, [], [], base)
  {
  }

  lemma PlanOneMore(letters: CharClass, plan: seq<Scenario>, spots: seq<BlindSpot>, base: Word, spot: BlindSpot)
    requires IsPlan(letters, plan, spots, base)
    ensures |plan| == |spots|
    ensures IsPlan(letters, plan + [ScenarioFor(letters, spot, After(|plan| + 1, Seeded(base)))], spots + [spot], base)
  {
    hide ScenarioFor, After;
  }

  method PlanScenarios(letters: CharClass, spots: seq<BlindSpot>, highOnly: bool, base: Word) returns (plan: seq<Scenario>)
    ensures IsPlan(letters, plan, PlannedSpots(highOnly, spots), base)
  {
    hide Step, ScenarioFor, IsPlan;
    plan := [];
    EmptyPlan(letters, base);
    var rng := new Rng(base);
    for i := 0 to |spots|
      invariant fresh(rng)
      invariant IsPlan(letters, plan, PlannedSpots(highOnly, spots[..i]), base) && rng.state == After(|plan|, Seeded(base))
    {
      assert spots[..i + 1][..i] == spots[..i];
      if highOnly && spots[i].impact != High {
        assert PlannedSpots(highOnly, spots[..i + 1]) == PlannedSpots(highOnly, spots[..i]);
        continue;
      }
      var seed := rng.NextU64();
      PlanOneMore(letters, plan, PlannedSpots(highOnly, spots[..i]), base, spots[i]);
      assert seed == After(|plan| + 1, Seeded(base));
      plan := plan + [ScenarioFor(letters, spots[i], seed)];
    }
    assert spots[..|spots|] == spots;
  }

  lemma PlannedOneMore(highOnly: bool, spots: seq<BlindSpot>, spot: BlindSpot)
    ensures PlannedSpots(highOnly, spots + [spot]) == PlannedSpots(highOnly, spots) + if Planned(highOnly, spot) then [spot] else []
  {
    assert (spots + [spot])[..|spots|] == spots;
  }

  /** The planned spots are those of high impact, or all, in their order. */
  lemma {:induction false} PlannedSpotsAre(highOnly: bool, spots: seq<BlindSpot>) returns (at: seq<nat>)
    ensures |at| == |PlannedSpots(highOnly, spots)| && forall i, j :: 0 <= i < j < |at| ==> at[i] < at[j]
    ensures forall k :: 0 <= k < |at| ==> at[k] < |spots| && PlannedSpots(highOnly, spots)[k] == spots[at[k]]
    ensures forall i :: i in at <==> 0 <= i < |spots| && (highOnly ==> spots[i].impact == High)
  {
    at := [];
    if spots != [] {
      var n := |spots| - 1;
      at := PlannedSpotsAre(highOnly, spots[..n]);
      if Planned(highOnly, spots[n]) {
        at := at + [n];
      }
    }
  }

  lemma {:induction false} FilteringTwiceChangesNothing(spots: seq<BlindSpot>)
    ensures PlannedSpots(false, PlannedSpots(true, spots)) == PlannedSpots(true, spots)
    ensures PlannedSpots(true, PlannedSpots(true, spots)) == PlannedSpots(true, spots)
  {
    if spots != [] {
      var before, last := spots[..|spots| - 1], spots[|spots| - 1];
      FilteringTwiceChangesNothing(before);
      var kept := PlannedSpots(true, before);
      if last.impact == High {
        assert PlannedSpots(true, spots) == kept + [last];
        PlannedOneMore(true, kept, last);
        PlannedOneMore(false, kept, last);
      } else {
        assert PlannedSpots(true, spots) == kept;
      }
    }
  }

  /** Planning high-impact spots only is planning a report that was filtered beforehand: dropped spots take no draw. */
  lemma HighImpactOnlyIsPrefiltering(letters: CharClass, plan: seq<Scenario>, spots: seq<BlindSpot>, base: Word)
    ensures IsPlan(letters, plan, PlannedSpots(true, spots), base)
       <==> IsPlan(letters, plan, PlannedSpots(false, PlannedSpots(true, spots)), base)
  {
    FilteringTwiceChangesNothing(spots);
  }

  /** Two scenarios of a plan share a seed only if the generator has come back to its initial state in between. */
  lemma {:induction false} SharedSeedMeansFullCircle(letters: CharClass, plan: seq<Scenario>, spots: seq<BlindSpot>, base: Word, i: nat, j: nat)
    requires IsPlan(letters, plan, spots, base) && i < j < |plan| && plan[i].seed == plan[j].seed
    ensures After(j - i, Seeded(base)) == Seeded(base)
  {
    hide Step;
    RepeatsOnlyThroughStart(i + 1, j + 1, Seeded(base));
  }

  /** Neighbours in a plan never share a seed. */
  lemma NeighboursDiffer(letters: CharClass, plan: seq<Scenario>, spots: seq<BlindSpot>, base: Word, i: nat)
    requires IsPlan(letters, plan, spots, base) && i + 1 < |plan|
    ensures plan[i].seed != plan[i + 1].seed
  {
    hide Step;
    ConsecutiveDrawsDiffer(i + 1, base);
  }

  /** Two scenarios of a plan have the same id, and so the same file, exactly when their slugs agree and their draws agree in
      the lower 32 bits. */
  lemma SharedIdIff(letters: CharClass, plan: seq<Scenario>, spots: seq<BlindSpot>, base: Word, i: nat, j: nat)
    requires IsPlan(letters, plan, spots, base) && i < |plan| && j < |plan|
    ensures plan[i].id == plan[j].id <==>
              && Slug(letters, plan[i].dimension) == Slug(letters, plan[j].dimension)
              && SameLowHalf(After(i + 1, Seeded(base)), After(j + 1, Seeded(base)))
  {
    hide Slug, Hex, Step, SameLowHalf;
    IdsCollideIff(letters, plan[i].dimension, plan[i].seed, plan[j].dimension, plan[j].seed);
  }

  // ----- generation -----

  datatype Generation<F> = Generation(
    fixtures: seq<(Scenario, F)>,
    skipped: seq<Scenario>,
    byRisk: map<RiskClass, nat>,
    byCategory: map<string, nat>)

  /** The scenarios that `generator` can handle, in order, with what it makes of them. */
  function Handled<F>(generator: Scenario -> Option<F>, scenarios: seq<Scenario>): seq<(Scenario, F)> {
    if scenarios == [] then []
    else
      var before, last := scenarios[..|scenarios| - 1], scenarios[|scenarios| - 1];
      Handled(generator, before) + match generator(last) { case Some(f) => [(last, f)] case None => [] }
  }

  function Unhandled<F>(generator: Scenario -> Option<F>, scenarios: seq<Scenario>): seq<Scenario> {
    if scenarios == [] then []
    else
      var before, last := scenarios[..|scenarios| - 1], scenarios[|scenarios| - 1];
      Unhandled(generator, before) + if generator(last).None? then [last] else []
  }

  function Bumped<K>(counts: map<K, nat>, k: K): map<K, nat> {
    counts[k := (if k in counts then counts[k] else 0) + 1]
  }

  ghost function At<K(!new)>(counts: map<K, nat>): K -> nat {
    k => if k in counts then counts[k] else 0
  }

  ghost function Total<K(!new)>(counts: map<K, nat>): nat {
    Sum(counts.Keys, At(counts))
  }

  lemma {:induction false} SumAgrees<K(!new)>(S: set<K>, f: K -> nat, g: K -> nat)
    requires forall k :: k in S ==> f(k) == g(k)
    ensures Sum(S, f) == Sum(S, g)
    decreases |S|
  {
    if S != {} {
      var k :| k in S;
      SumRemove(S, f, k);
      SumRemove(S, g, k);
      SumAgrees(S - {k}, f, g);
    }
  }

  lemma BumpAddsOne<K(!new)>(counts: map<K, nat>, k: K)
    ensures Total(Bumped(counts, k)) == Total(counts) + 1
  {
    var bumped := Bumped(counts, k);
    var others := counts.Keys - {k};
    assert bumped.Keys == counts.Keys + {k} && bumped.Keys - {k} == others;
    SumRemove(bumped.Keys, At(bumped), k);
    SumAgrees(others, At(counts), At(bumped));
    if k in counts {
      SumRemove(counts.Keys, At(counts), k);
    } else {
      assert others == counts.Keys;
    }
  }

  ghost function CountWith<F>(fixtures: seq<(Scenario, F)>, p: Scenario -> bool): nat {
    if fixtures == [] then 0
    else CountWith(fixtures[..|fixtures| - 1], p) + if p(fixtures[|fixtures| - 1].0) then 1 else 0
  }

  ghost function HasRisk(risk: RiskClass): Scenario -> bool {
    (s: Scenario) => s.risk == risk
  }

  ghost function HasCategory(category: string): Scenario -> bool {
    (s: Scenario) => s.category == category
  }

  ghost predicate Counted<F>(g: Generation<F>) {
    && (forall risk :: At(g.byRisk)(risk) == CountWith(g.fixtures, HasRisk(risk)))
    && (forall category :: At(g.byCategory)(category) == CountWith(g.fixtures, HasCategory(category)))
    && Total(g.byRisk) == |g.fixtures| && Total(g.byCategory) == |g.fixtures|
  }

  method GenerateFixtures<F>(scenarios: seq<Scenario>, generator: Scenario -> Option<F>) returns (g: Generation<F>)
    ensures g.fixtures == Handled(generator, scenarios) && g.skipped == Unhandled(generator, scenarios)
    ensures Counted(g)
  {
    g := Generation([], [], map[], map[]);
    for i := 0 to |scenarios|
      invariant g.fixtures == Handled(generator, scenarios[..i]) && g.skipped == Unhandled(generator, scenarios[..i])
      invariant Counted(g)
    {
      var s := scenarios[i];
      assert scenarios[..i + 1][..i] == scenarios[..i];
      match generator(s)
      case Some(f) =>
        CountedStep(g, s, f);
        g := g.(fixtures := g.fixtures + [(s, f)], byRisk := Bumped(g.byRisk, s.risk), byCategory := Bumped(g.byCategory, s.category));
      case None =>
        g := g.(skipped := g.skipped + [s]);
    }
    assert scenarios[..|scenarios|] == scenarios;
  }

  lemma CountedStep<F>(g: Generation<F>, s: Scenario, f: F)
    requires Counted(g)
    ensures Counted(g.(fixtures := g.fixtures + [(s, f)], byRisk := Bumped(g.byRisk, s.risk), byCategory := Bumped(g.byCategory, s.category)))
  {
    hide Total;
    BumpAddsOne(g.byRisk, s.risk);
    BumpAddsOne(g.byCategory, s.category);
    assert (g.fixtures + [(s, f)])[..|g.fixtures|] == g.fixtures;
  }

  function Scenarios<F>(pairs: seq<(Scenario, F)>): seq<Scenario> {
    if pairs == [] then [] else Scenarios(pairs[..|pairs| - 1]) + [pairs[|pairs| - 1].0]
  }

  lemma ScenariosOneMore<F>(pairs: seq<(Scenario, F)>, pair: (Scenario, F))
    ensures Scenarios(pairs + [pair]) == Scenarios(pairs) + [pair.0]
  {
    assert (pairs + [pair])[..|pairs|] == pairs;
  }

  /** `whole` is split into `a` and `b`, both in the order of `whole`. */
  ghost predicate SplitsInto<T>(whole: seq<T>, a: seq<T>, b: seq<T>) {
    if |whole| == 0 then |a| == 0 && |b| == 0
    else
      var before, last := whole[..|whole| - 1], whole[|whole| - 1];
      || (|a| > 0 && a[|a| - 1] == last && SplitsInto(before, a[..|a| - 1], b))
      || (|b| > 0 && b[|b| - 1] == last && SplitsInto(before, a, b[..|b| - 1]))
  }

  lemma {:induction false} SplitByGenerator<F>(generator: Scenario -> Option<F>, scenarios: seq<Scenario>)
    ensures forall p :: p in Handled(generator, scenarios) ==> generator(p.0) == Some(p.1)
    ensures forall s :: s in Unhandled(generator, scenarios) ==> generator(s) == None
  {
    if scenarios != [] {
      SplitByGenerator(generator, scenarios[..|scenarios| - 1]);
    }
  }

  /** No scenario is lost, counted twice or moved, and each is on the side its generator puts it on. */
  lemma {:induction false} GenerationSplitsScenarios<F>(generator: Scenario -> Option<F>, scenarios: seq<Scenario>)
    ensures SplitsInto(scenarios, Scenarios(Handled(generator, scenarios)), Unhandled(generator, scenarios))
    ensures forall p :: p in Handled(generator, scenarios) ==> generator(p.0) == Some(p.1)
    ensures forall s :: s in Unhandled(generator, scenarios) ==> generator(s) == None
  {
    SplitByGenerator(generator, scenarios);
    if scenarios != [] {
      var before, last := scenarios[..|scenarios| - 1], scenarios[|scenarios| - 1];
      GenerationSplitsScenarios(generator, before);
      var handled, unhandled := Handled(generator, before), Unhandled(generator, before);
      if generator(last).Some? {
        ScenariosOneMore(handled, (last, generator(last).value));
        assert (Scenarios(handled) + [last])[..|Scenarios(handled)|] == Scenarios(handled);
        assert Unhandled(generator, scenarios) == unhandled;
      } else {
        assert (unhandled + [last])[..|unhandled|] == unhandled;
        assert Handled(generator, scenarios) == handled;
      }
    }
  }

  // ----- the plan and the tables in terms of their parts -----

  /** A planned scenario copies category and dimension of its spot, and its risk is the impact's. */
  lemma PlannedScenario(letters: CharClass, plan: seq<Scenario>, spots: seq<BlindSpot>, base: Word, k: nat)
    requires IsPlan(letters, plan, spots, base) && k < |plan|
    ensures plan[k].category == spots[k].category && plan[k].dimension == spots[k].dimension
    ensures (plan[k].risk == HighRisk <==> spots[k].impact == High) && (plan[k].risk == LowRisk <==> spots[k].impact == Low)
    ensures plan[k].risk == MediumRisk <==> spots[k].impact == Medium
    ensures plan[k].name == "Adversarial: " + spots[k].dimension
  {
    hide Slug, Hex, Step, Description;
  }

  /** The property at position `i` of the fixtures. */
  ghost function Where<F>(fixtures: seq<(Scenario, F)>, p: Scenario -> bool): int -> bool {
    i => 0 <= i < |fixtures| && p(fixtures[i].0)
  }

  lemma {:induction false} CountWithIsNumber<F>(fixtures: seq<(Scenario, F)>, p: Scenario -> bool, n: nat)
    requires n <= |fixtures|
    ensures CountWith(fixtures[..n], p) == Number(n, Where(fixtures, p))
  {
    hide Number;
    if n == 0 {
      NumberGrows(0, Where(fixtures, p));
    } else {
      CountWithIsNumber(fixtures, p, n - 1);
      NumberGrows(n - 1, Where(fixtures, p));
      assert fixtures[..n][..n - 1] == fixtures[..n - 1];
    }
  }

  /** An entry of a table is the number of fixtures with that risk or category. */
  lemma TablesCountFixtures<F>(g: Generation<F>, risk: RiskClass, category: string)
    requires Counted(g)
    ensures (if risk in g.byRisk then g.byRisk[risk] else 0) == Number(|g.fixtures|, Where(g.fixtures, (s: Scenario) => s.risk == risk))
    ensures (if category in g.byCategory then g.byCategory[category] else 0)
         == Number(|g.fixtures|, Where(g.fixtures, (s: Scenario) => s.category == category))
  {
    assert g.fixtures[..|g.fixtures|] == g.fixtures;
    CountWithIsNumber(g.fixtures, HasRisk(risk), |g.fixtures|);
    CountWithIsNumber(g.fixtures, HasCategory(category), |g.fixtures|);
    assert At(g.byRisk)(risk) == CountWith(g.fixtures, HasRisk(risk));
    assert At(g.byCategory)(category) == CountWith(g.fixtures, HasCategory(category));
    hide Number, CountWith, Total;
  }
}
