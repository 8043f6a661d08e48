/** Escalation rules over effective permissions: requirement trees, and the two-phase match. */
module RuleEngine {
  import opened Wrappers
  import opened Seqs
  import opened Glob
  import opened ActionMatcher
  import opened EffectivePermissions

  datatype Requirement =
    | Single(permission: string)
    | AllOf(allOf: seq<Requirement>)
    | AnyOf(anyOf: seq<Requirement>)

  datatype Trigger = Trigger(matchCount: nat, minTier: nat)

  datatype Rule = Rule(
    id: string,
    name: string,
    category: string,
    permissions: Option<Requirement>,
    severityTier: nat,
    boost: real,
    trigger: Option<Trigger>)

  datatype MatchedRule = MatchedRule(
    ruleId: string,
    ruleName: string,
    category: string,
    severityTier: nat,
    boost: real,
    matchedPermissions: seq<string>)

  predicate Grants(p: Permission, required: string) {
    p.action == "*" || ActionMatches(p.action, required)
  }

  predicate Granted(perms: seq<Permission>, required: string) {
    exists p | p in perms :: Grants(p, required)
  }

  /** The requirement as an and/or formula over granted permissions. */
  predicate Satisfied(req: Requirement, perms: seq<Permission>) {
    match req
    case Single(permission) => Granted(perms, permission)
    case AllOf(reqs) => forall r | r in reqs :: Satisfied(r, perms)
    case AnyOf(reqs) => exists r | r in reqs :: Satisfied(r, perms)
  }

  /** The same formula over a list of permission names. */
  predicate SatisfiedBy(req: Requirement, names: seq<string>) {
    match req
    case Single(permission) => permission in names
    case AllOf(reqs) => forall r | r in reqs :: SatisfiedBy(r, names)
    case AnyOf(reqs) => exists r | r in reqs :: SatisfiedBy(r, names)
  }

  // ----- the evidence: which required permissions were found -----

  /** The required permission, once for each permission that grants it. */
  function Repeat(perms: seq<Permission>, required: string): seq<string> {
    if perms == [] then [] else Once(Grants(perms[0], required), required) + Repeat(perms[1..], required)
  }

  function Once(granted: bool, required: string): seq<string> {
    if granted then [required] else []
  }

  lemma {:induction false} RepeatIsEvidence(perms: seq<Permission>, required: string)
    ensures forall e :: e in Repeat(perms, required) ==> e == required
    ensures Repeat(perms, required) != [] <==> Granted(perms, required)
  {
    if perms != [] {
      RepeatIsEvidence(perms[1..], required);
      assert perms == [perms[0]] + perms[1..];
    }
  }

  lemma RepeatStep(perms: seq<Permission>, i: nat, required: string, found: seq<string>)
    requires i < |perms|
    ensures found + Repeat(perms[i..], required)
         == found + Once(Grants(perms[i], required), required) + Repeat(perms[i + 1..], required)
  {
    Rest(perms, i);
    Regroup(found, Once(Grants(perms[i], required), required), Repeat(perms[i + 1..], required));
  }

  function Evidence(req: Requirement, perms: seq<Permission>): seq<string>
    decreases req
  {
    match req
    case Single(permission) => Repeat(perms, permission)
    case AllOf(reqs) => EvidenceOfAll(reqs, perms)
    case AnyOf(reqs) => EvidenceOfAny(reqs, perms)
  }

  /** Up to the first requirement that is not met. */
  function EvidenceOfAll(reqs: seq<Requirement>, perms: seq<Permission>): seq<string>
    decreases reqs
  {
    if reqs == [] || !Satisfied(reqs[0], perms) then []
    else Evidence(reqs[0], perms) + EvidenceOfAll(reqs[1..], perms)
  }

  /** That of the first requirement that is met. */
  function EvidenceOfAny(reqs: seq<Requirement>, perms: seq<Permission>): seq<string>
    decreases reqs
  {
    if reqs == [] then []
    else if Satisfied(reqs[0], perms) then Evidence(reqs[0], perms)
    else EvidenceOfAny(reqs[1..], perms)
  }

  /** Short-circuit evaluation of the tree decides the and/or formula. */
  method EvaluateRequirement(req: Requirement, perms: seq<Permission>) returns (matched: bool, found: seq<string>)
    ensures matched == Satisfied(req, perms)
    ensures found == Evidence(req, perms)
    decreases req, 1
  {
    match req {
      case Single(permission) => matched, found := EvaluateSingle(permission, perms);
      case AllOf(reqs) => matched, found := EvaluateAllOf(reqs, perms);
      case AnyOf(reqs) => matched, found := EvaluateAnyOf(reqs, perms);
    }
  }

  method EvaluateSingle(permission: string, perms: seq<Permission>) returns (matched: bool, found: seq<string>)
    ensures matched == Granted(perms, permission) && found == Repeat(perms, permission)
  {
    found := [];
    for i := 0 to |perms|
      invariant found + Repeat(perms[i..], permission) == Repeat(perms, permission)
    {
      RepeatStep(perms, i, permission, found);
      if Grants(perms[i], permission) {
        found := found + [permission];
      } else {
        assert found + [] == found;
      }
    }
    assert found + [] == found;
    RepeatIsEvidence(perms, permission);
    matched := found != [];
  }

  method EvaluateAllOf(reqs: seq<Requirement>, perms: seq<Permission>) returns (allMatched: bool, found: seq<string>)
    ensures allMatched == forall r | r in reqs :: Satisfied(r, perms)
    ensures found == EvidenceOfAll(reqs, perms)
    decreases reqs, 0
  {
    allMatched, found := true, [];
    for i := 0 to |reqs|
      invariant allMatched
      invariant forall k :: 0 <= k < i ==> Satisfied(reqs[k], perms)
      invariant found + EvidenceOfAll(reqs[i..], perms) == EvidenceOfAll(reqs, perms)
    {
      assert reqs[i..][1..] == reqs[i + 1..];
      var subMatched, subFound := EvaluateRequirement(reqs[i], perms);
      if !subMatched {
        allMatched := false;
        break;
      }
      found := found + subFound;
    }
  }

  method EvaluateAnyOf(reqs: seq<Requirement>, perms: seq<Permission>) returns (matched: bool, found: seq<string>)
    ensures matched == exists r | r in reqs :: Satisfied(r, perms)
    ensures found == EvidenceOfAny(reqs, perms)
    decreases reqs, 0
  {
    for i := 0 to |reqs|
      invariant forall k :: 0 <= k < i ==> !Satisfied(reqs[k], perms)
      invariant EvidenceOfAny(reqs[i..], perms) == EvidenceOfAny(reqs, perms)
    {
      assert reqs[i..][1..] == reqs[i + 1..];
      var subMatched, subFound := EvaluateRequirement(reqs[i], perms);
      if subMatched {
        return true, subFound;
      }
    }
    return false, [];
  }

  lemma {:induction false} MoreNamesSatisfy(req: Requirement, names: seq<string>, more: seq<string>)
    requires SatisfiedBy(req, names) && forall n :: n in names ==> n in more
    ensures SatisfiedBy(req, more)
    decreases req
  {
    match req
    case Single(_) =>
    case AllOf(reqs) =>
      forall r | r in reqs ensures SatisfiedBy(r, more) { MoreNamesSatisfy(r, names, more); }
    case AnyOf(reqs) =>
      var r :| r in reqs && SatisfiedBy(r, names);
      MoreNamesSatisfy(r, names, more);
  }

  /** The reported permissions are all granted, and alone they satisfy a matched requirement. */
  lemma {:induction false} EvidenceIsSound(req: Requirement, perms: seq<Permission>)
    ensures forall e :: e in Evidence(req, perms) ==> Granted(perms, e)
    ensures Satisfied(req, perms) ==> SatisfiedBy(req, Evidence(req, perms))
    decreases req, 1
  {
    match req
    case Single(permission) =>
      RepeatIsEvidence(perms, permission);
      var found := Repeat(perms, permission);
      if found != [] { assert found[0] in found; }
    case AllOf(reqs) => EvidenceOfAllIsSound(reqs, perms);
    case AnyOf(reqs) => EvidenceOfAnyIsSound(reqs, perms);
  }

  lemma {:induction false} EvidenceOfAllIsSound(reqs: seq<Requirement>, perms: seq<Permission>)
    ensures forall e :: e in EvidenceOfAll(reqs, perms) ==> Granted(perms, e)
    ensures (forall r :: r in reqs ==> Satisfied(r, perms)) ==>
            forall r :: r in reqs ==> SatisfiedBy(r, EvidenceOfAll(reqs, perms))
    decreases reqs, 0
  {
    if reqs != [] && Satisfied(reqs[0], perms) {
      EvidenceIsSound(reqs[0], perms);
      EvidenceOfAllIsSound(reqs[1..], perms);
      if forall r :: r in reqs ==> Satisfied(r, perms) {
        forall r | r in reqs ensures SatisfiedBy(r, EvidenceOfAll(reqs, perms)) {
          if r == reqs[0] {
            MoreNamesSatisfy(r, Evidence(r, perms), EvidenceOfAll(reqs, perms));
          } else {
            assert r in reqs[1..];
            MoreNamesSatisfy(r, EvidenceOfAll(reqs[1..], perms), EvidenceOfAll(reqs, perms));
          }
        }
      }
    }
  }

  lemma {:induction false} EvidenceOfAnyIsSound(reqs: seq<Requirement>, perms: seq<Permission>)
    ensures forall e :: e in EvidenceOfAny(reqs, perms) ==> Granted(perms, e)
    ensures (exists r :: r in reqs && Satisfied(r, perms)) ==>
            exists r :: r in reqs && SatisfiedBy(r, EvidenceOfAny(reqs, perms))
    decreases reqs, 0
  {
    if reqs != [] {
      EvidenceIsSound(reqs[0], perms);
      EvidenceOfAnyIsSound(reqs[1..], perms);
      assert reqs == [reqs[0]] + reqs[1..];
    }
  }

  // ----- matching -----

  function MatchRule(rule: Rule, perms: seq<Permission>): Option<MatchedRule> {
    if rule.trigger.Some? || rule.permissions.None? || !Satisfied(rule.permissions.value, perms) then None
    else
      Some(MatchedRule(rule.id, rule.name, rule.category, rule.severityTier, rule.boost,
                       Evidence(rule.permissions.value, perms)))
  }

  function PrimaryMatches(rules: seq<Rule>, perms: seq<Permission>): seq<MatchedRule> {
    if rules == [] then []
    else
      match MatchRule(rules[0], perms)
      case None => PrimaryMatches(rules[1..], perms)
      case Some(m) => [m] + PrimaryMatches(rules[1..], perms)
  }

  function QualifyingCount(matches: seq<MatchedRule>, minTier: nat): nat {
    if matches == [] then 0
    else (if matches[0].severityTier <= minTier then 1 else 0) + QualifyingCount(matches[1..], minTier)
  }

  /** The indices of the matches severe enough. */
  ghost function Qualifying(matches: seq<MatchedRule>, minTier: nat): set<nat> {
    set i: nat | i < |matches| && matches[i].severityTier <= minTier
  }

  lemma {:induction false} CountsQualifying(matches: seq<MatchedRule>, minTier: nat)
    ensures QualifyingCount(matches, minTier) == |Qualifying(matches, minTier)|
  {
    if matches != [] {
      var front, last := matches[..|matches| - 1], matches[|matches| - 1];
      CountsQualifying(front, minTier);
      CountsLast(front, last, minTier);
      QualifyingLast(front, last, minTier);
      assert matches == front + [last];
    }
  }

  lemma QualifyingLast(front: seq<MatchedRule>, last: MatchedRule, minTier: nat)
    ensures |Qualifying(front + [last], minTier)| ==
            |Qualifying(front, minTier)| + if last.severityTier <= minTier then 1 else 0
  {
    assert Qualifying(front + [last], minTier) ==
      Qualifying(front, minTier) + if last.severityTier <= minTier then {|front|} else {};
  }

  lemma {:induction false} CountsLast(front: seq<MatchedRule>, last: MatchedRule, minTier: nat)
    ensures QualifyingCount(front + [last], minTier) ==
            QualifyingCount(front, minTier) + if last.severityTier <= minTier then 1 else 0
  {
    if front == [] {
      assert front + [last] == [last];
    } else {
      assert (front + [last])[1..] == front[1..] + [last];
      CountsLast(front[1..], last, minTier);
    }
  }

  predicate CascadeFires(rule: Rule, primary: seq<MatchedRule>) {
    rule.trigger.Some? && QualifyingCount(primary, rule.trigger.value.minTier) >= rule.trigger.value.matchCount
  }

  function CascadeMatch(rule: Rule): MatchedRule {
    MatchedRule(rule.id, rule.name, rule.category, rule.severityTier, rule.boost, [])
  }

  function CascadeMatches(rules: seq<Rule>, primary: seq<MatchedRule>): seq<MatchedRule> {
    if rules == [] then []
    else
      Fired(rules[0], primary) + CascadeMatches(rules[1..], primary)
  }

  function Fired(rule: Rule, primary: seq<MatchedRule>): seq<MatchedRule> {
    if CascadeFires(rule, primary) then [CascadeMatch(rule)] else []
  }

  /** Phase 1: the primary rules. Phase 2: the cascade rules, counting phase 1 only. */
  function AllMatches(rules: seq<Rule>, perms: seq<Permission>): seq<MatchedRule> {
    PrimaryMatches(rules, perms) + CascadeMatches(rules, PrimaryMatches(rules, perms))
  }

  /** A rule with a trigger is left to the second phase. */
  method EvaluateRule(rule: Rule, perms: seq<Permission>) returns (m: Option<MatchedRule>)
    ensures m == MatchRule(rule, perms)
  {
    if rule.trigger.Some? || rule.permissions.None? {
      return None;
    }
    var matched, found := EvaluateRequirement(rule.permissions.value, perms);
    if !matched {
      return None;
    }
    return Some(MatchedRule(rule.id, rule.name, rule.category, rule.severityTier, rule.boost, found));
  }

  method MatchPrimaryRules(rules: seq<Rule>, perms: seq<Permission>) returns (primary: seq<MatchedRule>)
    ensures primary == PrimaryMatches(rules, perms)
  {
    primary := [];
    for i := 0 to |rules|
      invariant primary + PrimaryMatches(rules[i..], perms) == PrimaryMatches(rules, perms)
    {
      Rest(rules, i);
      var m := EvaluateRule(rules[i], perms);
      if m.Some? {
        Regroup(primary, [m.value], PrimaryMatches(rules[i + 1..], perms));
        primary := primary + [m.value];
      }
    }
    assert primary + [] == primary;
  }

  method MatchAllRules(rules: seq<Rule>, perms: seq<Permission>) returns (all: seq<MatchedRule>)
    ensures all == AllMatches(rules, perms)
  {
    var primary := MatchPrimaryRules(rules, perms);
    all := primary;
    for i := 0 to |rules|
      invariant all + CascadeMatches(rules[i..], primary) == AllMatches(rules, perms)
    {
      if rules[i].trigger.Some? {
        var count := 0;
        var tier := rules[i].trigger.value.minTier;
        for k := 0 to |primary|
          invariant count + QualifyingCount(primary[k..], tier) == QualifyingCount(primary, tier)
        {
          if primary[k].severityTier <= tier { count := count + 1; }
        }
        if count >= rules[i].trigger.value.matchCount {
          all := all + [CascadeMatch(rules[i])];
        }
      }
    }
  }

  // ----- monotonicity -----

  /** Everything `perms` grants, `more` grants. */
  ghost predicate GrantsAtLeast(more: seq<Permission>, perms: seq<Permission>) {
    forall required :: Granted(perms, required) ==> Granted(more, required)
  }

  /** Adding permissions, or widening one to a pattern without `?` that matches its text. */
  lemma SupersetGrantsAtLeast(perms: seq<Permission>, more: seq<Permission>)
    requires forall p :: p in perms ==>
               exists q :: q in more && (q == p || (ActionMatches(q.action, p.action) && '?' !in q.action))
    ensures GrantsAtLeast(more, perms)
  {
    forall required | Granted(perms, required) ensures Granted(more, required) {
      var p :| p in perms && Grants(p, required);
      var q :| q in more && (q == p || (ActionMatches(q.action, p.action) && '?' !in q.action));
      StarGrantsAll(required);
      if q != p {
        ActionTextIncludes(q.action, p.action, required);
      }
      assert Grants(q, required);
    }
  }

  lemma StarGrantsAll(required: string)
    ensures ActionMatches("*", required)
  {
    ActionMatchesDecides("*", required);
    LoneStar(Lower(required));
    assert Lower("*") == "*";
  }

  lemma {:induction false} SatisfiedMonotone(req: Requirement, perms: seq<Permission>, more: seq<Permission>)
    requires GrantsAtLeast(more, perms) && Satisfied(req, perms)
    ensures Satisfied(req, more)
    decreases req
  {
    match req
    case Single(_) =>
    case AllOf(reqs) =>
      forall r | r in reqs ensures Satisfied(r, more) { SatisfiedMonotone(r, perms, more); }
    case AnyOf(reqs) =>
      var r :| r in reqs && Satisfied(r, perms);
      SatisfiedMonotone(r, perms, more);
  }

  function BoostSum(matches: seq<MatchedRule>): real {
    if matches == [] then 0.0 else matches[0].boost + BoostSum(matches[1..])
  }

  lemma {:induction false} BoostSumConcat(xs: seq<MatchedRule>, ys: seq<MatchedRule>)
    ensures BoostSum(xs + ys) == BoostSum(xs) + BoostSum(ys)
  {
    if xs == [] {
      assert xs + ys == ys;
    } else {
      assert (xs + ys)[1..] == xs[1..] + ys;
      BoostSumConcat(xs[1..], ys);
    }
  }

  ghost predicate NonNegativeBoosts(rules: seq<Rule>) {
    forall r :: r in rules ==> r.boost >= 0.0
  }

  /** A larger permission set loses no primary match, no qualifying count and no boost. */
  lemma {:induction false} PrimaryMonotone(rules: seq<Rule>, perms: seq<Permission>, more: seq<Permission>, tier: nat)
    requires GrantsAtLeast(more, perms)
    ensures forall r :: r in rules && MatchRule(r, perms).Some? ==> MatchRule(r, more).Some?
    ensures QualifyingCount(PrimaryMatches(rules, perms), tier) <= QualifyingCount(PrimaryMatches(rules, more), tier)
    ensures NonNegativeBoosts(rules) ==>
            BoostSum(PrimaryMatches(rules, perms)) <= BoostSum(PrimaryMatches(rules, more))
  {
    if rules != [] {
      PrimaryMonotone(rules[1..], perms, more, tier);
      if MatchRule(rules[0], perms).Some? {
        SatisfiedMonotone(rules[0].permissions.value, perms, more);
      }
    }
  }

  lemma {:induction false} CascadeMonotone(rules: seq<Rule>, primary: seq<MatchedRule>, more: seq<MatchedRule>)
    requires forall tier :: QualifyingCount(primary, tier) <= QualifyingCount(more, tier)
    ensures forall r :: r in rules && CascadeFires(r, primary) ==> CascadeFires(r, more)
    ensures NonNegativeBoosts(rules) ==>
            BoostSum(CascadeMatches(rules, primary)) <= BoostSum(CascadeMatches(rules, more))
  {
    if rules != [] {
      CascadeMonotone(rules[1..], primary, more);
      BoostSumConcat(Fired(rules[0], primary), CascadeMatches(rules[1..], primary));
      BoostSumConcat(Fired(rules[0], more), CascadeMatches(rules[1..], more));
      FiredMonotone(rules[0], primary, more);
      assert rules == [rules[0]] + rules[1..];
    }
  }

  lemma FiredMonotone(rule: Rule, primary: seq<MatchedRule>, more: seq<MatchedRule>)
    requires forall tier :: QualifyingCount(primary, tier) <= QualifyingCount(more, tier)
    ensures CascadeFires(rule, primary) ==> CascadeFires(rule, more)
    ensures rule.boost >= 0.0 ==> BoostSum(Fired(rule, primary)) <= BoostSum(Fired(rule, more))
  {
    assert [CascadeMatch(rule)][1..] == [];
  }

  /** The first phase reports exactly the rules without a trigger whose requirement is met. */
  lemma {:induction false} PrimaryReports(rules: seq<Rule>, perms: seq<Permission>)
    ensures forall m :: m in PrimaryMatches(rules, perms) <==> exists r :: r in rules && MatchRule(r, perms) == Some(m)
  {
    if rules != [] {
      PrimaryReports(rules[1..], perms);
      assert rules == [rules[0]] + rules[1..];
    }
  }

  /** The second phase reports exactly the rules whose trigger the first phase reaches. */
  lemma {:induction false} CascadeReports(rules: seq<Rule>, primary: seq<MatchedRule>)
    ensures forall m :: m in CascadeMatches(rules, primary) <==>
              exists r :: r in rules && CascadeFires(r, primary) && m == CascadeMatch(r)
  {
    if rules != [] {
      CascadeReports(rules[1..], primary);
      assert rules == [rules[0]] + rules[1..];
    }
  }

  // ----- what is matched, told without the functions that compute it -----

  /** A required permission is granted exactly when some permission's pattern holds a recasing of
      it. */
  lemma GrantedIff(perms: seq<Permission>, required: string)
    ensures Granted(perms, required) <==>
            exists p, spelling :: p in perms && Recased(required, spelling) && InLanguage(p.action, spelling)
  {
    forall p: Permission
      ensures Grants(p, required) <==> exists spelling :: Recased(required, spelling) && InLanguage(p.action, spelling)
    {
      ActionMatchesIff(p.action, required);
      StarGrantsAll(required);
    }
  }

  /** The evidence of a conjunction is that of its parts in order, up to the first not met. */
  lemma {:induction false} EvidenceOfAllInOrder(reqs: seq<Requirement>, r: Requirement, perms: seq<Permission>)
    ensures EvidenceOfAll([], perms) == []
    ensures (forall q :: q in reqs ==> Satisfied(q, perms)) ==>
              EvidenceOfAll(reqs + [r], perms) ==
              EvidenceOfAll(reqs, perms) + if Satisfied(r, perms) then Evidence(r, perms) else []
    ensures !(forall q :: q in reqs ==> Satisfied(q, perms)) ==>
              EvidenceOfAll(reqs + [r], perms) == EvidenceOfAll(reqs, perms)
  {
    if reqs == [] {
      assert reqs + [r] == [r] && [r][1..] == [] && Evidence(r, perms) + [] == Evidence(r, perms);
    } else {
      assert (reqs + [r])[1..] == reqs[1..] + [r] && reqs == [reqs[0]] + reqs[1..];
      EvidenceOfAllInOrder(reqs[1..], r, perms);
      Regroup(Evidence(reqs[0], perms), EvidenceOfAll(reqs[1..], perms),
              if Satisfied(r, perms) then Evidence(r, perms) else []);
    }
  }

  /** The evidence of a disjunction is that of its first part that is met. */
  lemma {:induction false} EvidenceOfAnyIsFirst(reqs: seq<Requirement>, perms: seq<Permission>, k: nat)
    requires k < |reqs| && Satisfied(reqs[k], perms) && forall i :: 0 <= i < k ==> !Satisfied(reqs[i], perms)
    ensures EvidenceOfAny(reqs, perms) == Evidence(reqs[k], perms)
  {
    if k > 0 {
      assert forall i :: 0 <= i < k - 1 ==> reqs[1..][i] == reqs[i + 1];
      EvidenceOfAnyIsFirst(reqs[1..], perms, k - 1);
    }
  }

  /** Each required permission is reported once for each permission that grants it. */
  lemma {:induction false} RepeatSize(perms: seq<Permission>, required: string)
    ensures |Repeat(perms, required)| == |set i: nat | i < |perms| && Grants(perms[i], required)|
  {
    if perms != [] {
      var front, last := perms[..|perms| - 1], perms[|perms| - 1];
      RepeatSize(front, required);
      RepeatLast(front, last, required);
      GrantersLast(front, last, required);
      assert perms == front + [last];
    }
  }

  lemma {:induction false} RepeatLast(front: seq<Permission>, last: Permission, required: string)
    ensures Repeat(front + [last], required) == Repeat(front, required) + Once(Grants(last, required), required)
  {
    if front == [] {
      assert front + [last] == [last] && Repeat([last][1..], required) == [];
    } else {
      assert (front + [last])[1..] == front[1..] + [last];
      RepeatLast(front[1..], last, required);
      Regroup(Once(Grants(front[0], required), required), Repeat(front[1..], required),
              Once(Grants(last, required), required));
    }
  }

  lemma GrantersLast(front: seq<Permission>, last: Permission, required: string)
    ensures |set i: nat | i < |front + [last]| && Grants((front + [last])[i], required)|
         == |set i: nat | i < |front| && Grants(front[i], required)| + if Grants(last, required) then 1 else 0
  {
    assert (set i: nat | i < |front + [last]| && Grants((front + [last])[i], required)) ==
      (set i: nat | i < |front| && Grants(front[i], required)) + if Grants(last, required) then {|front|} else {};
  }

  /** The rule's own match, with this evidence. */
  ghost predicate IsMatchOf(m: MatchedRule, r: Rule, evidence: seq<string>) {
    && m.ruleId == r.id && m.ruleName == r.name && m.category == r.category
    && m.severityTier == r.severityTier && m.boost == r.boost && m.matchedPermissions == evidence
  }

  /** A rule without a trigger, whose requirement the permissions meet. */
  ghost predicate IsPrimary(m: MatchedRule, r: Rule, perms: seq<Permission>) {
    && r.trigger == None && r.permissions != None && Satisfied(r.permissions.value, perms)
    && IsMatchOf(m, r, Evidence(r.permissions.value, perms))
  }

  /** A rule with a trigger that asks for no more severe primary matches than there are. */
  ghost predicate IsTriggered(m: MatchedRule, r: Rule, primary: seq<MatchedRule>) {
    && r.trigger != None && IsMatchOf(m, r, [])
    && |set i: nat | i < |primary| && primary[i].severityTier <= r.trigger.value.minTier| >= r.trigger.value.matchCount
  }

  /** The result is the primary matches, then the triggered ones, and holds no others. */
  lemma MatchesIff(rules: seq<Rule>, perms: seq<Permission>)
    ensures var primary, all := PrimaryMatches(rules, perms), AllMatches(rules, perms);
      && primary <= all
      && (forall m :: m in primary <==> exists r :: r in rules && IsPrimary(m, r, perms))
      && (forall m :: m in all[|primary|..] <==> exists r :: r in rules && IsTriggered(m, r, primary))
  {
    var primary := PrimaryMatches(rules, perms);
    PrimaryReports(rules, perms);
    CascadeReports(rules, primary);
    forall m, r ensures MatchRule(r, perms) == Some(m) <==> IsPrimary(m, r, perms) {}
    forall m, r ensures (CascadeFires(r, primary) && m == CascadeMatch(r)) <==> IsTriggered(m, r, primary) {
      TriggeredIff(m, r, primary);
    }
    assert AllMatches(rules, perms)[|primary|..] == CascadeMatches(rules, primary);
  }

  /** Within each phase the matches come in the order of the rules. */
  lemma {:induction false} MatchesInOrder(rules: seq<Rule>, later: seq<Rule>, perms: seq<Permission>,
                                          primary: seq<MatchedRule>)
    ensures PrimaryMatches(rules + later, perms) == PrimaryMatches(rules, perms) + PrimaryMatches(later, perms)
    ensures CascadeMatches(rules + later, primary) == CascadeMatches(rules, primary) + CascadeMatches(later, primary)
  {
    if rules == [] {
      assert rules + later == later;
    } else {
      assert (rules + later)[1..] == rules[1..] + later;
      MatchesInOrder(rules[1..], later, perms, primary);
      if MatchRule(rules[0], perms).Some? {
        Regroup([MatchRule(rules[0], perms).value], PrimaryMatches(rules[1..], perms), PrimaryMatches(later, perms));
      }
      Regroup(Fired(rules[0], primary),
              CascadeMatches(rules[1..], primary), CascadeMatches(later, primary));
    }
  }

  lemma TriggeredIff(m: MatchedRule, r: Rule, primary: seq<MatchedRule>)
    ensures (CascadeFires(r, primary) && m == CascadeMatch(r)) <==> IsTriggered(m, r, primary)
  {
    if r.trigger.Some? {
      CountsQualifying(primary, r.trigger.value.minTier);
      assert Qualifying(primary, r.trigger.value.minTier) ==
        set i: nat | i < |primary| && primary[i].severityTier <= r.trigger.value.minTier;
    }
  }

  /** A trigger that asks for exactly as many severe matches as there are fires, and one that asks
      for one more does not. */
  lemma TriggerThreshold(rule: Rule, primary: seq<MatchedRule>, minTier: nat)
    ensures var n := |set i: nat | i < |primary| && primary[i].severityTier <= minTier|;
      && CascadeMatches([rule.(trigger := Some(Trigger(n, minTier)))], primary) != []
      && CascadeMatches([rule.(trigger := Some(Trigger(n + 1, minTier)))], primary) == []
  {
    var n := |set i: nat | i < |primary| && primary[i].severityTier <= minTier|;
    CountsQualifying(primary, minTier);
    assert Qualifying(primary, minTier) == set i: nat | i < |primary| && primary[i].severityTier <= minTier;
    OneTrigger(rule.(trigger := Some(Trigger(n, minTier))), primary);
    OneTrigger(rule.(trigger := Some(Trigger(n + 1, minTier))), primary);
  }

  lemma OneTrigger(rule: Rule, primary: seq<MatchedRule>)
    ensures CascadeMatches([rule], primary) == Fired(rule, primary)
  {
    assert [rule][1..] == [] && Fired(rule, primary) + [] == Fired(rule, primary);
  }

  ghost predicate RuleIdReported(matches: seq<MatchedRule>, id: string) {
    exists m :: m in matches && m.ruleId == id
  }

  /** Through both phases a larger permission set reports every rule the smaller one does,
      and with non-negative boosts the summed boost does not fall. */
  lemma MatchingIsMonotone(rules: seq<Rule>, perms: seq<Permission>, more: seq<Permission>)
    requires GrantsAtLeast(more, perms)
    ensures forall id :: RuleIdReported(AllMatches(rules, perms), id) ==> RuleIdReported(AllMatches(rules, more), id)
    ensures NonNegativeBoosts(rules) ==> BoostSum(AllMatches(rules, perms)) <= BoostSum(AllMatches(rules, more))
  {
    var p, q := PrimaryMatches(rules, perms), PrimaryMatches(rules, more);
    forall tier ensures QualifyingCount(p, tier) <= QualifyingCount(q, tier) {
      PrimaryMonotone(rules, perms, more, tier);
    }
    PrimaryMonotone(rules, perms, more, 0);
    CascadeMonotone(rules, p, q);
    BoostSumConcat(p, CascadeMatches(rules, p));
    BoostSumConcat(q, CascadeMatches(rules, q));
    PrimaryReports(rules, perms);
    PrimaryReports(rules, more);
    CascadeReports(rules, p);
    CascadeReports(rules, q);
    forall id | RuleIdReported(AllMatches(rules, perms), id) ensures RuleIdReported(AllMatches(rules, more), id) {
      var m :| m in AllMatches(rules, perms) && m.ruleId == id;
      if m in p {
        var r :| r in rules && MatchRule(r, perms) == Some(m);
        assert MatchRule(r, more).value in q;
      } else {
        var r :| r in rules && CascadeFires(r, p) && m == CascadeMatch(r);
        assert CascadeMatch(r) in CascadeMatches(rules, q);
      }
    }
  }
}
