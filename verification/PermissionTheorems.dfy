/** What the symbolic pairs of the effective set say about concrete actions and resources. */
module PermissionTheorems {
  import opened Wrappers
  import opened Glob
  import opened ActionMatcher
  import opened ResourceMatcher
  import opened Policy
  import opened EffectivePermissions
  import opened PrefixMatchers

  /** The concrete request is one of those the symbolic pair stands for. */
  predicate StandsFor(p: Permission, action: string, resource: string) {
    ActionMatches(p.action, action) && ResourceMatches(p.resource, resource)
  }

  predicate Keeps(session: Option<Policy>, p: Permission) {
    !SessionAllows(session, p.action, p.resource).Constrained?
  }

  /** Session filtering of the base vector. */
  function WithSession(base: seq<Permission>, session: Option<Policy>): (kept: seq<Permission>)
    ensures forall p :: p in kept <==>
              p in base && (session == None || SliceAllows(session.value.statements, p.action, p.resource))
    ensures StrictlyIncreasing(base) ==> StrictlyIncreasing(kept)
    ensures session.None? ==> kept == base
  {
    if base == [] then []
    else
      var rest := WithSession(base[1..], session);
      assert base == [base[0]] + base[1..];
      assert forall i | 0 <= i < |rest| :: rest[i] in base[1..];
      if Keeps(session, base[0]) then [base[0]] + rest else rest
  }

  ghost predicate AllowsLift(stmts: seq<Statement>, p: Permission) {
    forall s :: s in stmts && s.effect.Allow? ==> Liftable(s, p.action, p.resource)
  }

  /** Every limiting policy lifts the pair. */
  ghost predicate LimitsLift(req: Inputs, session: Option<Policy>, p: Permission) {
    && (forall level :: level in req.chain ==> AllowsLift(level, p))
    && (req.boundary.Some? ==> AllowsLift(req.boundary.value.statements, p))
    && (session.Some? ==> AllowsLift(session.value.statements, p))
  }

  /** Nothing an effective pair stands for is beyond any SCP level, the boundary or the
      session policy. */
  lemma LimitsAreSound(req: Inputs, holds: Holds, session: Option<Policy>, p: Permission,
                       action: string, resource: string)
    requires Effective(req, holds, p) && Keeps(session, p) && LimitsLift(req, session, p)
    requires StandsFor(p, action, resource)
    ensures WithinLimits(req, action, resource)
    ensures !SessionAllows(session, action, resource).Constrained?
  {
    forall level | level in req.chain ensures SliceAllows(level, action, resource) {
      SliceLifts(level, p.action, p.resource, action, resource);
    }
    if req.boundary.Some? && req.boundary.value.statements != [] {
      SliceLifts(req.boundary.value.statements, p.action, p.resource, action, resource);
    }
    if session.Some? {
      SliceLifts(session.value.statements, p.action, p.resource, action, resource);
    }
  }

  // ----- the reference semantics on concrete requests -----

  predicate IdentityAllows(req: Inputs, action: string, resource: string) {
    exists s | s in AllStatements(req.identity) :: s.effect.Allow? && Covers(s, action, resource)
  }

  predicate Permitted(req: Inputs, holds: Holds, action: string, resource: string) {
    && IdentityAllows(req, action, resource)
    && EvaluateDeny(AllStatements(req.identity), action, resource, holds).NoExplicitDeny?
    && WithinLimits(req, action, resource)
  }

  /** Some output pair stands for the request. */
  ghost predicate Reported(req: Inputs, holds: Holds, action: string, resource: string) {
    exists p :: Effective(req, holds, p) && StandsFor(p, action, resource)
  }

  predicate Unlimited(req: Inputs) {
    req.chain == [] && (req.boundary.Some? ==> req.boundary.value.statements == [])
  }

  /** What the policy parser guarantees: exactly one of Action and NotAction, one of Resource
      and NotResource. */
  predicate Parsed(s: Statement) {
    (s.actions == [] <==> s.notActions != []) && (s.resources == [] <==> s.notResources != [])
  }

  /** The candidate pair of an Allow statement that stands for a request it covers. */
  lemma CandidateFor(s: Statement, action: string, resource: string) returns (p: Permission)
    requires Parsed(s) && s.effect.Allow? && Covers(s, action, resource)
    ensures Yields(s, p) && StandsFor(p, action, resource)
    ensures s.notActions == [] || p.action == "*"
  {
    var a, r := "*", "*";
    if s.actions != [] {
      a :| a in s.actions && ActionMatches(a, action);
    } else {
      ActionMatchesDecides("*", action);
      LoneStar(Lower(action));
      assert Lower("*") == "*";
    }
    if s.resources != [] {
      r :| r in s.resources && ResourceMatches(r, resource);
    }
    p := Permission(a, r);
  }

  /** No SCP level and an absent or empty boundary leave every request. */
  lemma UnlimitedIsWithinLimits(req: Inputs, action: string, resource: string)
    requires Unlimited(req)
    ensures WithinLimits(req, action, resource)
  {}

  /** With no SCP or boundary, every concrete request that is allowed and not denied is
      reported, provided each Deny statement lifts every candidate pair. */
  lemma CompleteWithoutLimits(req: Inputs, holds: Holds, action: string, resource: string)
    requires Unlimited(req)
    requires forall s :: s in AllStatements(req.identity) && s.effect.Allow? ==> Parsed(s)
    requires forall s, p :: s in AllStatements(req.identity) && s.effect.Deny? && IsCandidate(req, p)
               ==> Liftable(s, p.action, p.resource)
    requires IdentityAllows(req, action, resource)
    requires EvaluateDeny(AllStatements(req.identity), action, resource, holds).NoExplicitDeny?
    ensures Reported(req, holds, action, resource)
  {
    var all := AllStatements(req.identity);
    var s :| s in all && s.effect.Allow? && Covers(s, action, resource);
    var p := CandidateFor(s, action, resource);
    assert IsCandidate(req, p);
    forall d | d in all ensures !Denies(d, p.action, p.resource, holds) {
      DenyLifts(d, p, action, resource, holds);
    }
    UnlimitedIsWithinLimits(req, p.action, p.resource);
    assert Effective(req, holds, p);
  }

  /** A statement that denies a pair denies the requests it stands for. */
  lemma DenyLifts(d: Statement, p: Permission, action: string, resource: string, holds: Holds)
    requires d.effect.Deny? ==> Liftable(d, p.action, p.resource)
    requires StandsFor(p, action, resource)
    ensures Denies(d, p.action, p.resource, holds) ==> Denies(d, action, resource, holds)
  {
    if Denies(d, p.action, p.resource, holds) {
      CoverLifts(d, p.action, p.resource, action, resource);
    }
  }

  /** Every Allow statement lists literal actions and resources. */
  predicate LiteralAllows(req: Inputs) {
    forall s | s in AllStatements(req.identity) ::
      s.effect.Allow? ==>
        (&& Parsed(s) && s.notActions == [] && s.notResources == []
         && (forall a | a in s.actions :: !HasWildcard(a))
         && (forall r | r in s.resources :: !HasWildcard(r)))
  }

  /** With literal identity policies the engine is exact for every Deny, SCP and boundary
      policy, NotAction and NotResource included. */
  lemma ExactOnLiteralIdentity(req: Inputs, holds: Holds, action: string, resource: string)
    requires LiteralAllows(req)
    ensures Reported(req, holds, action, resource) <==> Permitted(req, holds, action, resource)
  {
    var all := AllStatements(req.identity);
    if Reported(req, holds, action, resource) {
      var p :| Effective(req, holds, p) && StandsFor(p, action, resource);
      var s :| s in all && Yields(s, p);
      assert Covers(s, action, resource);
      SameVerdicts(req, holds, p, action, resource);
    }
    if Permitted(req, holds, action, resource) {
      var s :| s in all && s.effect.Allow? && Covers(s, action, resource);
      var p := CandidateFor(s, action, resource);
      SameVerdicts(req, holds, p, action, resource);
      assert Effective(req, holds, p);
    }
  }

  lemma SameVerdicts(req: Inputs, holds: Holds, p: Permission, action: string, resource: string)
    requires !HasWildcard(p.action) && !HasWildcard(p.resource) && StandsFor(p, action, resource)
    ensures WithinLimits(req, p.action, p.resource) <==> WithinLimits(req, action, resource)
    ensures EvaluateDeny(AllStatements(req.identity), p.action, p.resource, holds)
         == EvaluateDeny(AllStatements(req.identity), action, resource, holds)
  {
    forall s ensures Covers(s, p.action, p.resource) <==> Covers(s, action, resource) {
      LiteralTransparent(s, p.action, p.resource, action, resource);
    }
    assert forall s :: Denies(s, p.action, p.resource, holds) <==> Denies(s, action, resource, holds);
    assert forall stmts :: SliceAllows(stmts, p.action, p.resource) <==> SliceAllows(stmts, action, resource);
  }

  // ----- the output as a function of the policies -----

  ghost predicate Output(req: Inputs, holds: Holds, out: seq<Permission>) {
    StrictlyIncreasing(out) && forall p :: p in out <==> Effective(req, holds, p)
  }

  ghost predicate SameStatements(xs: seq<Statement>, ys: seq<Statement>) {
    forall s :: s in xs <==> s in ys
  }

  ghost predicate HasSame(chain: seq<seq<Statement>>, level: seq<Statement>) {
    exists level' :: level' in chain && SameStatements(level, level')
  }

  /** The same statements, in any order, any grouping into identity policies and any
      multiplicity; the same SCP levels in any order. */
  ghost predicate Rearranged(req: Inputs, req': Inputs) {
    && SameStatements(AllStatements(req.identity), AllStatements(req'.identity))
    && (forall level :: level in req.chain ==> HasSame(req'.chain, level))
    && (forall level :: level in req'.chain ==> HasSame(req.chain, level))
    && (req.boundary.None? <==> req'.boundary.None?)
    && (req.boundary.Some? ==> SameStatements(req.boundary.value.statements, req'.boundary.value.statements))
  }

  lemma SameSlices(xs: seq<Statement>, ys: seq<Statement>, action: string, resource: string)
    requires SameStatements(xs, ys)
    ensures SliceAllows(xs, action, resource) <==> SliceAllows(ys, action, resource)
    ensures xs == [] <==> ys == []
  {
    if xs != [] { assert xs[0] in ys; }
    if ys != [] { assert ys[0] in xs; }
  }

  lemma RearrangedLimits(req: Inputs, req': Inputs, action: string, resource: string)
    requires Rearranged(req, req') && WithinLimits(req, action, resource)
    ensures WithinLimits(req', action, resource)
  {
    forall level' | level' in req'.chain ensures SliceAllows(level', action, resource) {
      assert HasSame(req.chain, level');
      var level :| level in req.chain && SameStatements(level', level);
      SameSlices(level', level, action, resource);
    }
    if req.boundary.Some? {
      SameSlices(req.boundary.value.statements, req'.boundary.value.statements, action, resource);
    }
  }

  lemma RearrangedKeeps(req: Inputs, req': Inputs, holds: Holds, p: Permission)
    requires Rearranged(req, req') && Effective(req, holds, p)
    ensures Effective(req', holds, p)
  {
    RearrangedLimits(req, req', p.action, p.resource);
    var s :| s in AllStatements(req.identity) && Yields(s, p);
    assert s in AllStatements(req'.identity);
  }

  /** Permuting policies, statements or levels leaves the output vector unchanged. */
  lemma OutputIgnoresOrder(req: Inputs, req': Inputs, holds: Holds, out: seq<Permission>, out': seq<Permission>)
    requires Rearranged(req, req') && Output(req, holds, out) && Output(req', holds, out')
    ensures out == out'
  {
    forall p | Effective(req, holds, p) ensures Effective(req', holds, p) {
      RearrangedKeeps(req, req', holds, p);
    }
    forall p | Effective(req', holds, p) ensures Effective(req, holds, p) {
      RearrangedKeeps(req', req, holds, p);
    }
    IncreasingUnique(out, out');
  }

  ghost predicate AddsStatement(identity: seq<Policy>, identity': seq<Policy>, stmt: Statement) {
    forall s :: s in AllStatements(identity') <==> s in AllStatements(identity) || s == stmt
  }

  /** Adding an Allow statement to an identity policy only adds pairs, adding a Deny only
      removes pairs. */
  lemma OutputMonotoneInStatements(req: Inputs, req': Inputs, holds: Holds, stmt: Statement,
                                   out: seq<Permission>, out': seq<Permission>)
    requires req' == req.(identity := req'.identity) && AddsStatement(req.identity, req'.identity, stmt)
    requires Output(req, holds, out) && Output(req', holds, out')
    ensures stmt.effect.Allow? ==> forall p :: p in out ==> p in out'
    ensures stmt.effect.Deny? ==> forall p :: p in out' ==> p in out
  {
    var all, all' := AllStatements(req.identity), AllStatements(req'.identity);
    forall p | stmt.effect.Allow? && Effective(req, holds, p) ensures Effective(req', holds, p) {
      assert forall s :: s in all' && s.effect.Deny? ==> s in all;
      assert !exists s :: s in all' && Denies(s, p.action, p.resource, holds);
      var s :| s in all && Yields(s, p);
      assert s in all';
    }
    forall p | stmt.effect.Deny? && Effective(req', holds, p) ensures Effective(req, holds, p) {
      var s :| s in all' && Yields(s, p);
      assert s in all;
      assert forall s :: s in all ==> s in all';
    }
  }

  // ----- conditions -----

  /** A condition of the statement fails in the evaluation context. */
  ghost predicate HasFailingCondition(s: Statement, holds: Holds) {
    exists c :: c in s.conditions && !holds(c)
  }

  /** Removing every Deny with a failing condition leaves the output unchanged. */
  lemma FailingDeniesDropOut(req: Inputs, req': Inputs, holds: Holds, out: seq<Permission>, out': seq<Permission>)
    requires req' == req.(identity := req'.identity)
    requires forall s :: s in AllStatements(req'.identity) <==>
               s in AllStatements(req.identity) && !(s.effect.Deny? && HasFailingCondition(s, holds))
    requires Output(req, holds, out) && Output(req', holds, out')
    ensures out == out'
  {
    var all, all' := AllStatements(req.identity), AllStatements(req'.identity);
    forall p ensures Effective(req, holds, p) <==> Effective(req', holds, p) {
      forall s | s in all && Denies(s, p.action, p.resource, holds) ensures s in all' {}
      forall s | s in all && Yields(s, p) ensures s in all' {}
    }
    IncreasingUnique(out, out');
  }

  /** The statement without its conditions, unless it is a Deny and one of them fails. */
  ghost function Cleared(s: Statement, holds: Holds): Statement {
    if s.effect.Deny? && HasFailingCondition(s, holds) then s else s.(conditions := [])
  }

  /** Clearing the conditions of every Deny whose conditions all hold, and of every Allow, leaves
      the output unchanged. */
  lemma HoldingConditionsClear(req: Inputs, req': Inputs, holds: Holds, out: seq<Permission>, out': seq<Permission>)
    requires req' == req.(identity := req'.identity)
    requires forall s' :: s' in AllStatements(req'.identity) <==>
               exists s :: s in AllStatements(req.identity) && s' == Cleared(s, holds)
    requires Output(req, holds, out) && Output(req', holds, out')
    ensures out == out'
  {
    var all, all' := AllStatements(req.identity), AllStatements(req'.identity);
    forall p ensures Effective(req, holds, p) <==> Effective(req', holds, p) {
      forall s ensures Yields(Cleared(s, holds), p) <==> Yields(s, p) {}
      forall s
        ensures Denies(Cleared(s, holds), p.action, p.resource, holds) <==> Denies(s, p.action, p.resource, holds)
      {
        ClearedDenies(s, holds, p.action, p.resource);
      }
      assert forall s :: s in all ==> Cleared(s, holds) in all';
    }
    IncreasingUnique(out, out');
  }

  lemma ClearedDenies(s: Statement, holds: Holds, action: string, resource: string)
    ensures Denies(Cleared(s, holds), action, resource, holds) <==> Denies(s, action, resource, holds)
  {
    assert Covers(Cleared(s, holds), action, resource) <==> Covers(s, action, resource);
  }

  /** Attaching a boundary, an SCP level or a session policy only removes pairs. */
  lemma OutputShrinksUnderLimits(req: Inputs, holds: Holds, level: seq<Statement>, boundary: Policy,
                                 session: Option<Policy>, p: Permission)
    ensures Effective(req.(chain := req.chain + [level]), holds, p) ==> Effective(req, holds, p)
    ensures Effective(req.(boundary := Some(boundary)), holds, p) ==>
            Effective(req.(boundary := None), holds, p)
    ensures forall out :: Output(req, holds, out) ==>
              forall q :: q in WithSession(out, session) ==> q in out
  {
    assert forall l :: l in req.chain ==> l in req.chain + [level];
  }

  // ----- where the symbolic checks and the concrete ones part -----

  function Stmt(effect: Effect, actions: seq<string>, notActions: seq<string>): Statement {
    Statement(None, effect, actions, notActions, ["*"], [], [])
  }

  function Identity(stmts: seq<Statement>): Inputs {
    Inputs([Policy("2012-10-17", stmts)], None, [])
  }

  lemma IdentityStatements(stmts: seq<Statement>)
    ensures AllStatements(Identity(stmts).identity) == stmts
  {
    var policies := Identity(stmts).identity;
    assert policies[1..] == [] && AllStatements(policies) == policies[0].statements + AllStatements(policies[1..]);
  }

  const EVERYTHING := Permission("*", "*")

  lemma StarStandsForAll(action: string, resource: string)
    ensures StandsFor(EVERYTHING, action, resource)
  {
    ActionMatchesDecides("*", action);
    assert Lower("*") == "*";
    LoneStar(Lower(action));
  }

  lemma PrefixStarMatches(prefix: string, tail: string)
    requires !HasWildcard(prefix)
    ensures ActionMatches(prefix + "*", prefix + tail)
  {
    assert HasWildcard(prefix) == false;
    LowerKeepsWildcards(prefix);
    LoneStar(Lower(tail));
    LiteralThen(Lower(prefix), "*", Lower(tail));
    assert Lower(prefix + "*") == Lower(prefix) + "*";
    assert Lower(prefix + tail) == Lower(prefix) + Lower(tail);
    ActionMatchesDecides(prefix + "*", prefix + tail);
  }

  lemma PrefixStarMissesStar(prefix: string)
    requires !HasWildcard(prefix) && |prefix| > 1
    ensures !ActionMatches(prefix + "*", "*")
  {
    ActionMatchesDecides(prefix + "*", "*");
    var p := Lower(prefix + "*");
    LowerKeepsWildcards(prefix);
    assert p == Lower(prefix) + "*";
    if InLanguage(p, Lower("*")) {
      var left, right := SplitAt(Lower(prefix), "*", Lower("*"));
      LiteralLanguage(Lower(prefix), left);
      assert false;
    }
  }

  lemma LiteralMissesPatterns(literal: string, other: string)
    requires !HasWildcard(literal) && HasWildcard(other)
    ensures ActionMatches(literal, literal) && !ActionMatches(literal, other)
  {
    LowerKeepsWildcards(literal);
    LowerKeepsWildcards(other);
  }

  /** An SCP `?` matches the text `*`: the pair passes, and stands for actions the SCP blocks. */
  lemma QuestionMarkLeaksThroughScp(holds: Holds)
    ensures var req := Identity([Stmt(Allow, ["*"], [])]).(chain := [[Stmt(Allow, ["?"], [])]]);
            Effective(req, holds, EVERYTHING) && StandsFor(EVERYTHING, "s3:GetObject", "*")
            && !WithinLimits(req, "s3:GetObject", "*")
  {
    var allow, scp := Stmt(Allow, ["*"], []), Stmt(Allow, ["?"], []);
    var req := Identity([allow]).(chain := [[scp]]);
    StarStandsForAll("s3:GetObject", "*");
    IdentityStatements([allow]);
    assert allow in AllStatements(req.identity) && "*" in allow.actions && Yields(allow, EVERYTHING);
    assert Lower("?") == "?" && Lower("*") == "*";
    assert "?" in scp.actions && ActionMatches("?", "*");
    assert "*" in scp.resources && ResourceMatches("*", "*");
    assert scp in [scp] && Covers(scp, "*", "*");
    var text := Lower("s3:GetObject");
    assert |text| == 12 && !MatchFrom("?", text, 1, 1);
    assert !Covers(scp, "s3:GetObject", "*");
    assert [scp] in req.chain;
  }

  /** An SCP NotAction that does not match the text `*` lets the pair pass, although the pair
      stands for every excluded action. */
  lemma NotActionLeaksThroughScp(prefix: string, name: string, holds: Holds)
    requires !HasWildcard(prefix) && |prefix| > 1
    ensures var req := Identity([Stmt(Allow, ["*"], [])]).(chain := [[Stmt(Allow, [], [prefix + "*"])]]);
            Effective(req, holds, EVERYTHING) && StandsFor(EVERYTHING, prefix + name, "*")
            && !WithinLimits(req, prefix + name, "*")
  {
    var allow, scp := Stmt(Allow, ["*"], []), Stmt(Allow, [], [prefix + "*"]);
    var req := Identity([allow]).(chain := [[scp]]);
    StarStandsForAll(prefix + name, "*");
    IdentityStatements([allow]);
    assert allow in AllStatements(req.identity) && "*" in allow.actions && Yields(allow, EVERYTHING);
    PrefixStarMissesStar(prefix);
    PrefixStarMatches(prefix, name);
    assert "*" in scp.resources && ResourceMatches("*", "*");
    assert scp in [scp] && Covers(scp, "*", "*");
    assert prefix + "*" in scp.notActions && !Covers(scp, prefix + name, "*");
    assert [scp] in req.chain;
  }

  /** A Deny with NotAction drops the whole pair, losing every request it does not deny. */
  lemma NotActionDenyOverblocks(prefix: string, name: string, holds: Holds)
    requires !HasWildcard(prefix) && |prefix| > 1
    ensures var req := Identity([Stmt(Allow, ["*"], []), Stmt(Deny, [], [prefix + "*"])]);
            Permitted(req, holds, prefix + name, "*") && !Reported(req, holds, prefix + name, "*")
  {
    var allow, deny := Stmt(Allow, ["*"], []), Stmt(Deny, [], [prefix + "*"]);
    var req := Identity([allow, deny]);
    var all := AllStatements(req.identity);
    IdentityStatements([allow, deny]);
    assert allow in all && deny in all;
    StarStandsForAll(prefix + name, "*");
    PrefixStarMissesStar(prefix);
    PrefixStarMatches(prefix, name);
    assert "*" in allow.actions && "*" in allow.resources && Covers(allow, prefix + name, "*");
    assert prefix + "*" in deny.notActions && !Covers(deny, prefix + name, "*");
    assert "*" in deny.resources && Covers(deny, "*", "*") && Denies(deny, "*", "*", holds);
    forall p ensures !Effective(req, holds, p) {
      if IsCandidate(req, p) {
        var s :| s in all && Yields(s, p);
        assert s == allow && p == EVERYTHING;
      }
    }
  }

  /** A Deny narrower than the pair leaves the pair in place, standing for denied requests. */
  lemma NarrowDenyLeavesPair(prefix: string, name: string, holds: Holds)
    requires !HasWildcard(prefix) && !HasWildcard(name)
    ensures var req := Identity([Stmt(Allow, [prefix + "*"], []), Stmt(Deny, [prefix + name], [])]);
            Reported(req, holds, prefix + name, "*") && !Permitted(req, holds, prefix + name, "*")
  {
    var allow, deny := Stmt(Allow, [prefix + "*"], []), Stmt(Deny, [prefix + name], []);
    var req := Identity([allow, deny]);
    var all := AllStatements(req.identity);
    var p := Permission(prefix + "*", "*");
    IdentityStatements([allow, deny]);
    assert allow in all && deny in all;
    assert prefix + "*" in allow.actions && Yields(allow, p);
    PrefixStarMatches(prefix, name);
    assert (prefix + "*")[|prefix|] == '*';
    LiteralMissesPatterns(prefix + name, prefix + "*");
    assert prefix + name in deny.actions && "*" in deny.resources;
    assert !Covers(deny, p.action, "*") && Effective(req, holds, p);
    assert Denies(deny, prefix + name, "*", holds);
  }
}
