/** Principal scores: weighted signals plus a capped rule boost, clamped to [0, 1]. */
module Scorer {
  import opened EffectivePermissions
  import opened RuleEngine

  datatype Signal = Signal(name: string, rawValue: real, normalized: real)

  type Weights = map<string, real>

  datatype Contribution = Contribution(name: string, rawValue: real, normalized: real, weight: real, contribution: real)

  datatype Severity = Critical | High | Medium | Low | Info

  datatype Thresholds = Thresholds(critical: real, high: real, medium: real, low: real)

  datatype Assessment = Assessment(
    principalId: string,
    computedAt: string,
    score: real,
    severity: Severity,
    contributions: seq<Contribution>,
    matched: seq<MatchedRule>,
    ruleBoost: real,
    signalTotal: real)

  const MAX_RULE_BOOST := 0.30

  function Min(a: real, b: real): real { if a < b then a else b }

  function Clamp(x: real): real { if x < 0.0 then 0.0 else if x > 1.0 then 1.0 else x }

  function WeightOf(weights: Weights, name: string): real {
    if name in weights then weights[name] else 0.0
  }

  function RuleBoost(matched: seq<MatchedRule>): real {
    Min(BoostSum(matched), MAX_RULE_BOOST)
  }

  function Weighted(s: Signal, weights: Weights): real {
    s.normalized * WeightOf(weights, s.name)
  }

  function SignalTotal(signals: seq<Signal>, weights: Weights): real {
    if signals == [] then 0.0
    else Weighted(signals[0], weights) + SignalTotal(signals[1..], weights)
  }

  function ContributionOf(s: Signal, weights: Weights): Contribution {
    Contribution(s.name, s.rawValue, s.normalized, WeightOf(weights, s.name), Weighted(s, weights))
  }

  /** The score before the final clamp. */
  function RawScore(signals: seq<Signal>, weights: Weights, matched: seq<MatchedRule>): real {
    SignalTotal(signals, weights) + RuleBoost(matched)
  }

  /** The first threshold the score reaches. */
  function SeverityOf(score: real, t: Thresholds): Severity {
    if score >= t.critical then Critical
    else if score >= t.high then High
    else if score >= t.medium then Medium
    else if score >= t.low then Low
    else Info
  }

  function Rank(s: Severity): nat {
    match s case Critical => 4 case High => 3 case Medium => 2 case Low => 1 case Info => 0
  }

  /** The signal's record: its weight is 0 unless one is configured. */
  ghost predicate IsContribution(c: Contribution, s: Signal, weights: Weights) {
    && c.name == s.name && c.rawValue == s.rawValue && c.normalized == s.normalized
    && (s.name in weights ==> c.weight == weights[s.name]) && (s.name !in weights ==> c.weight == 0.0)
    && c.contribution == s.normalized * c.weight
  }

  ghost predicate IsCapped(boost: real, sum: real) {
    boost <= 0.30 && boost <= sum && (boost == 0.30 || boost == sum)
  }

  ghost predicate IsClamped(score: real, raw: real) {
    && 0.0 <= score <= 1.0
    && (raw < 0.0 ==> score == 0.0) && (raw > 1.0 ==> score == 1.0) && (0.0 <= raw <= 1.0 ==> score == raw)
  }

  /** The totals grow by one term for each signal and each match. */
  lemma {:induction false} TotalsAddUp(signals: seq<Signal>, s: Signal, weights: Weights)
    ensures SignalTotal([], weights) == 0.0
    ensures SignalTotal(signals + [s], weights) ==
            SignalTotal(signals, weights) + s.normalized * (if s.name in weights then weights[s.name] else 0.0)
  {
    if signals == [] {
      assert signals + [s] == [s] && [s][1..] == [];
    } else {
      assert (signals + [s])[1..] == signals[1..] + [s];
      TotalsAddUp(signals[1..], s, weights);
    }
  }

  lemma BoostsAddUp(matches: seq<MatchedRule>, m: MatchedRule)
    ensures BoostSum([]) == 0.0 && BoostSum(matches + [m]) == BoostSum(matches) + m.boost
  {
    BoostSumConcat(matches, [m]);
    assert [m][1..] == [];
  }

  /** With thresholds in order, a severity is at least a level exactly when the score reaches the
      level's threshold. */
  lemma SeverityIff(score: real, t: Thresholds)
    requires t.critical >= t.high >= t.medium >= t.low
    ensures var s := SeverityOf(score, t);
      && (s == Critical <==> t.critical <= score)
      && (s == High <==> t.high <= score < t.critical)
      && (s == Medium <==> t.medium <= score < t.high)
      && (s == Low <==> t.low <= score < t.medium)
      && (s == Info <==> score < t.low)
  {}

  method ScorePrincipal(principalId: string, signals: seq<Signal>, matched: seq<MatchedRule>, weights: Weights,
                        thresholds: Thresholds, computedAt: string)
    returns (a: Assessment)
    ensures a.principalId == principalId && a.computedAt == computedAt
    ensures a.severity == SeverityOf(a.score, thresholds)
    ensures a.score == Clamp(RawScore(signals, weights, matched))
    ensures a.signalTotal == SignalTotal(signals, weights) && a.ruleBoost == RuleBoost(matched) && a.matched == matched
    ensures |a.contributions| == |signals|
    ensures forall i :: 0 <= i < |signals| ==> a.contributions[i] == ContributionOf(signals[i], weights)
    ensures forall i :: 0 <= i < |signals| ==> IsContribution(a.contributions[i], signals[i], weights)
    ensures IsCapped(a.ruleBoost, BoostSum(matched)) && IsClamped(a.score, a.signalTotal + a.ruleBoost)
  {
    var total := 0.0;
    var contributions := [];
    for i := 0 to |signals|
      invariant total + SignalTotal(signals[i..], weights) == SignalTotal(signals, weights)
      invariant |contributions| == i
      invariant forall k :: 0 <= k < i ==> contributions[k] == ContributionOf(signals[k], weights)
    {
      assert signals[i..][1..] == signals[i + 1..];
      var weight := WeightOf(weights, signals[i].name);
      var contribution := signals[i].normalized * weight;
      total := total + contribution;
      contributions := contributions +
        [Contribution(signals[i].name, signals[i].rawValue, signals[i].normalized, weight, contribution)];
    }
    var boost := Min(BoostSum(matched), MAX_RULE_BOOST);
    var score := Clamp(total + boost);
    var severity := SeverityOf(score, thresholds);
    a := Assessment(principalId, computedAt, score, severity, contributions, matched, boost, total);
  }

  /** With non-negative boosts, more permissions never lower the score or the severity. */
  lemma ScoreIsMonotone(signals: seq<Signal>, weights: Weights, rules: seq<Rule>, perms: seq<Permission>,
                        more: seq<Permission>)
    requires GrantsAtLeast(more, perms) && NonNegativeBoosts(rules)
    ensures Clamp(RawScore(signals, weights, AllMatches(rules, perms)))
         <= Clamp(RawScore(signals, weights, AllMatches(rules, more)))
    ensures forall t :: Rank(SeverityOf(Clamp(RawScore(signals, weights, AllMatches(rules, perms))), t))
                     <= Rank(SeverityOf(Clamp(RawScore(signals, weights, AllMatches(rules, more))), t))
  {
    MatchingIsMonotone(rules, perms, more);
    var score := RawScore(signals, weights, AllMatches(rules, perms));
    var higher := RawScore(signals, weights, AllMatches(rules, more));
    forall t ensures Rank(SeverityOf(Clamp(score), t)) <= Rank(SeverityOf(Clamp(higher), t)) {
      SeverityIsMonotone(Clamp(score), Clamp(higher), t);
    }
  }

  /** However the thresholds are ordered. */
  lemma SeverityIsMonotone(score: real, higher: real, t: Thresholds)
    requires score <= higher
    ensures Rank(SeverityOf(score, t)) <= Rank(SeverityOf(higher, t))
  {}

  // ----- when the clamp can fire -----

  ghost function WeightSum(weights: Weights): real {
    if weights == map[] then 0.0
    else
      var k :| k in weights;
      weights[k] + WeightSum(weights - {k})
  }

  lemma {:induction false} WeightRemove(weights: Weights, name: string)
    requires name in weights
    ensures WeightSum(weights) == weights[name] + WeightSum(weights - {name})
    decreases |weights|
  {
    var k :| k in weights && WeightSum(weights) == weights[k] + WeightSum(weights - {k});
    if k != name {
      WeightRemove(weights - {k}, name);
      WeightRemove(weights - {name}, k);
      assert weights - {k} - {name} == weights - {name} - {k};
    }
  }

  ghost predicate NonNegative(weights: Weights) {
    forall k :: k in weights ==> weights[k] >= 0.0
  }

  lemma {:induction false} WeightSumNonNegative(weights: Weights)
    requires NonNegative(weights)
    ensures WeightSum(weights) >= 0.0
    decreases |weights|
  {
    if weights != map[] {
      var k :| k in weights;
      WeightRemove(weights, k);
      WeightSumNonNegative(weights - {k});
    }
  }

  /** One signal per name, each normalized to [0, 1]. */
  ghost predicate Normalized(signals: seq<Signal>) {
    && (forall i :: 0 <= i < |signals| ==> 0.0 <= signals[i].normalized <= 1.0)
    && (forall i, j :: 0 <= i < j < |signals| ==> signals[i].name != signals[j].name)
  }

  lemma {:induction false} TotalIgnoresOthers(signals: seq<Signal>, weights: Weights, name: string)
    requires forall i :: 0 <= i < |signals| ==> signals[i].name != name
    ensures SignalTotal(signals, weights - {name}) == SignalTotal(signals, weights)
  {
    if signals != [] {
      TotalIgnoresOthers(signals[1..], weights, name);
    }
  }

  lemma WeightedWithin(s: Signal, weights: Weights)
    requires 0.0 <= s.normalized <= 1.0 && NonNegative(weights)
    ensures 0.0 <= Weighted(s, weights) <= WeightOf(weights, s.name)
  {
    assert (1.0 - s.normalized) * WeightOf(weights, s.name) >= 0.0;
  }

  lemma {:induction false} TotalWithinWeights(signals: seq<Signal>, weights: Weights)
    requires Normalized(signals) && NonNegative(weights)
    ensures 0.0 <= SignalTotal(signals, weights) <= WeightSum(weights)
  {
    if signals == [] {
      WeightSumNonNegative(weights);
    } else {
      var name, rest := signals[0].name, signals[1..];
      WeightedWithin(signals[0], weights);
      TotalIgnoresOthers(rest, weights, name);
      assert Normalized(rest) && NonNegative(weights - {name});
      TotalWithinWeights(rest, weights - {name});
      RemoveBound(weights, name);
    }
  }

  lemma RemoveBound(weights: Weights, name: string)
    ensures WeightOf(weights, name) + WeightSum(weights - {name}) == WeightSum(weights)
  {
    if name in weights {
      WeightRemove(weights, name);
    } else {
      assert weights - {name} == weights;
    }
  }

  lemma OneMore(name: string, rest: seq<Signal>, weights: Weights) returns (signals: seq<Signal>)
    requires name in weights && Normalized(rest)
    requires forall i :: 0 <= i < |rest| ==> rest[i].name in weights && rest[i].name != name
    ensures Normalized(signals) && SignalTotal(signals, weights) == weights[name] + SignalTotal(rest, weights)
    ensures forall i :: 0 <= i < |signals| ==> signals[i].name in weights
  {
    signals := [Signal(name, 1.0, 1.0)] + rest;
    assert signals[1..] == rest;
  }

  lemma {:induction false} FullSignals(weights: Weights) returns (signals: seq<Signal>)
    ensures Normalized(signals) && SignalTotal(signals, weights) == WeightSum(weights)
    ensures forall i :: 0 <= i < |signals| ==> signals[i].name in weights
    decreases |weights|
  {
    signals := [];
    if weights != map[] {
      var k :| k in weights;
      WeightRemove(weights, k);
      var rest := FullSignals(weights - {k});
      TotalIgnoresOthers(rest, weights, k);
      signals := OneMore(k, rest, weights);
    }
  }

  ghost predicate InRange(x: real) { 0.0 <= x <= 1.0 }

  /** For non-negative weights the clamp never fires, whatever the signals and rules,
      exactly when the weights sum to at most 0.70. */
  lemma ClampNeverFiresIff(weights: Weights)
    requires NonNegative(weights)
    ensures (forall signals, matched | Normalized(signals) && BoostSum(matched) >= 0.0 ::
               InRange(RawScore(signals, weights, matched))) <==> WeightSum(weights) <= 0.70
  {
    if WeightSum(weights) > 0.70 {
      var signals := FullSignals(weights);
      var matched := [MatchedRule("", "", "", 1, MAX_RULE_BOOST, [])];
      assert BoostSum(matched[1..]) == 0.0 && RuleBoost(matched) == MAX_RULE_BOOST;
      assert !InRange(RawScore(signals, weights, matched));
    } else {
      forall signals, matched | Normalized(signals) && BoostSum(matched) >= 0.0
        ensures InRange(RawScore(signals, weights, matched))
      {
        TotalWithinWeights(signals, weights);
      }
    }
  }

  const DEFAULT_WEIGHTS: Weights := map[
    "blast_radius" := 0.18, "path_to_admin" := 0.22, "dangerous_action_count" := 0.18,
    "cross_account_hops" := 0.07, "permission_surface" := 0.05]

  lemma WithWeight(weights: Weights, name: string, weight: real)
    requires name !in weights
    ensures WeightSum(weights[name := weight]) == weight + WeightSum(weights)
  {
    WeightRemove(weights[name := weight], name);
    assert weights[name := weight] - {name} == weights;
  }

  const LAST_WEIGHTS: Weights := map["cross_account_hops" := 0.07, "permission_surface" := 0.05]

  lemma LastWeightsSum()
    ensures NonNegative(LAST_WEIGHTS) && WeightSum(LAST_WEIGHTS) == 0.12
  {
    WithWeight(map[], "permission_surface", 0.05);
    WithWeight(map["permission_surface" := 0.05], "cross_account_hops", 0.07);
    assert map["permission_surface" := 0.05]["cross_account_hops" := 0.07] == LAST_WEIGHTS;
  }

  /** The default configuration spends its 0.70 exactly. */
  lemma DefaultWeightsSum()
    ensures NonNegative(DEFAULT_WEIGHTS) && WeightSum(DEFAULT_WEIGHTS) == 0.70
  {
    LastWeightsSum();
    var w := LAST_WEIGHTS["dangerous_action_count" := 0.18];
    WithWeight(LAST_WEIGHTS, "dangerous_action_count", 0.18);
    WithWeight(w, "path_to_admin", 0.22);
    WithWeight(w["path_to_admin" := 0.22], "blast_radius", 0.18);
    assert w["path_to_admin" := 0.22]["blast_radius" := 0.18] == DEFAULT_WEIGHTS;
  }
}
