/** For exactly which statements the symbolic checks are right about every concrete request. */
module LimitTheorems {
  import opened Wrappers
  import opened Glob
  import opened ActionMatcher
  import opened ResourceMatcher
  import opened Policy
  import opened EffectivePermissions
  import opened PermissionTheorems
  import opened Fields

  // ----- statements as pairs of fields -----

  function ActionField(s: Statement): Field { Field(true, s.actions, s.notActions) }

  function ResourceField(s: Statement): Field { Field(false, s.resources, s.notResources) }

  lemma CoversIsAdmits(s: Statement, action: string, resource: string)
    ensures Covers(s, action, resource) <==> Admits(ActionField(s), action) && Admits(ResourceField(s), resource)
  {
    assert ActionCovered(s, action) <==> Admits(ActionField(s), action);
    assert ResourceCovered(s, resource) <==> Admits(ResourceField(s), resource);
  }

  /** A concrete request: a name and an ARN, not patterns. */
  predicate IsRequest(action: string, resource: string) {
    !HasWildcard(action) && !HasWildcard(resource)
  }

  predicate ReachesRequest(s: Statement, action: string, resource: string) {
    Reaches(ActionField(s), action) && Reaches(ResourceField(s), resource)
  }

  /** A statement reaches a request exactly when it covers some pair that stands for it. */
  lemma ReachesRequestIff(s: Statement, action: string, resource: string)
    ensures ReachesRequest(s, action, resource) <==>
            exists p: Permission :: Covers(s, p.action, p.resource) && StandsFor(p, action, resource)
  {
    ReachesIff(ActionField(s), action);
    ReachesIff(ResourceField(s), resource);
    if ReachesRequest(s, action, resource) {
      var a :| Admits(ActionField(s), a) && ActionMatches(a, action);
      var r :| Admits(ResourceField(s), r) && ResourceMatches(r, resource);
      CoversIsAdmits(s, a, r);
      var p := Permission(a, r);
      assert Covers(s, p.action, p.resource) && StandsFor(p, action, resource);
    }
    forall p: Permission | Covers(s, p.action, p.resource) && StandsFor(p, action, resource)
      ensures ReachesRequest(s, action, resource)
    {
      CoversIsAdmits(s, p.action, p.resource);
      assert Matches(true, p.action, action) && Matches(false, p.resource, resource);
    }
  }

  // ----- lists of statements: what is reached is covered -----

  predicate SomeCovers(stmts: seq<Statement>, effect: Effect, action: string, resource: string) {
    exists s | s in stmts :: s.effect == effect && Covers(s, action, resource)
  }

  predicate SomeReaches(stmts: seq<Statement>, effect: Effect, action: string, resource: string) {
    exists s | s in stmts :: s.effect == effect && ReachesRequest(s, action, resource)
  }

  /** Each request that a statement of this effect reaches, a statement of this effect covers. */
  ghost predicate ReachIsCovered(stmts: seq<Statement>, effect: Effect) {
    forall action, resource ::
      IsRequest(action, resource) && SomeReaches(stmts, effect, action, resource)
      ==> SomeCovers(stmts, effect, action, resource)
  }

  /** The verdict of the statements on each pair holds for every request the pair stands for. */
  ghost predicate CoverDescends(stmts: seq<Statement>, effect: Effect) {
    forall p: Permission, action, resource ::
      SomeCovers(stmts, effect, p.action, p.resource) && StandsFor(p, action, resource) && IsRequest(action, resource)
      ==> SomeCovers(stmts, effect, action, resource)
  }

  lemma CoverDescendsIff(stmts: seq<Statement>, effect: Effect)
    ensures CoverDescends(stmts, effect) <==> ReachIsCovered(stmts, effect)
  {
    forall s, action, resource
      ensures ReachesRequest(s, action, resource) <==>
              exists p: Permission :: Covers(s, p.action, p.resource) && StandsFor(p, action, resource)
    {
      ReachesRequestIff(s, action, resource);
    }
    if CoverDescends(stmts, effect) {
      forall action, resource | IsRequest(action, resource) && SomeReaches(stmts, effect, action, resource)
        ensures SomeCovers(stmts, effect, action, resource)
      {
        var s :| s in stmts && s.effect == effect && ReachesRequest(s, action, resource);
        var p: Permission :| Covers(s, p.action, p.resource) && StandsFor(p, action, resource);
        assert SomeCovers(stmts, effect, p.action, p.resource);
      }
    }
    if ReachIsCovered(stmts, effect) {
      forall p: Permission, action, resource |
        SomeCovers(stmts, effect, p.action, p.resource) && StandsFor(p, action, resource) && IsRequest(action, resource)
        ensures SomeCovers(stmts, effect, action, resource)
      {
        var s :| s in stmts && s.effect == effect && Covers(s, p.action, p.resource);
        assert SomeReaches(stmts, effect, action, resource);
      }
    }
  }

  /** For one statement this is a condition on each field by itself. */
  lemma OneReachIsCoveredIff(s: Statement)
    ensures ReachIsCovered([s], s.effect) <==>
      || AdmitsNoText(ActionField(s)) || AdmitsNoText(ResourceField(s))
      || (FieldDescends(ActionField(s)) && FieldDescends(ResourceField(s)))
  {
    var f, g := ActionField(s), ResourceField(s);
    FieldDescendsIff(f);
    FieldDescendsIff(g);
    AdmitsNoTextIff(f);
    AdmitsNoTextIff(g);
    forall action, resource ensures Covers(s, action, resource) <==> Admits(f, action) && Admits(g, resource) {
      CoversIsAdmits(s, action, resource);
    }
    forall action, resource
      ensures SomeReaches([s], s.effect, action, resource) <==> Reaches(f, action) && Reaches(g, resource)
      ensures SomeCovers([s], s.effect, action, resource) <==> Admits(f, action) && Admits(g, resource)
    {
      assert s in [s];
    }
    if ReachIsCovered([s], s.effect) && !AdmitsNoText(f) && !AdmitsNoText(g) {
      var a := ReachedName(f);
      var r := ReachedName(g);
      forall name | !HasWildcard(name) && Reaches(f, name) ensures Admits(f, name) {
        assert IsRequest(name, r) && SomeReaches([s], s.effect, name, r);
      }
      forall name | !HasWildcard(name) && Reaches(g, name) ensures Admits(g, name) {
        assert IsRequest(a, name) && SomeReaches([s], s.effect, a, name);
      }
    }
  }

  // ----- SCP levels, boundaries and session policies -----

  /** Behind this SCP level, whatever the other policies are, no effective pair stands for a
      request the level does not allow. */
  ghost predicate LevelIsSound(level: seq<Statement>, holds: Holds) {
    forall req: Inputs, p, action, resource ::
      level in req.chain && Effective(req, holds, p) && StandsFor(p, action, resource) && IsRequest(action, resource)
      ==> SliceAllows(level, action, resource)
  }

  ghost predicate BoundaryIsSound(boundary: Policy, holds: Holds) {
    forall req: Inputs, p, action, resource ::
      req.boundary == Some(boundary) && Effective(req, holds, p) && StandsFor(p, action, resource)
      && IsRequest(action, resource)
      ==> BoundaryAllows(boundary.statements, action, resource)
  }

  ghost predicate SessionIsSound(session: Policy, holds: Holds) {
    forall req, p, action, resource ::
      Effective(req, holds, p) && Keeps(Some(session), p) && StandsFor(p, action, resource)
      && IsRequest(action, resource)
      ==> SessionAllows(Some(session), action, resource).Allowed?
  }

  /** One action pattern on one resource pattern. */
  function Listing(effect: Effect, action: string, resource: string): Statement {
    Statement(None, effect, [action], [], [resource], [], [])
  }

  /** An Allow statement whose one candidate is the pair. */
  function Granting(p: Permission): Statement {
    Listing(Allow, p.action, p.resource)
  }

  lemma GrantingYields(p: Permission)
    ensures Yields(Granting(p), p) && Parsed(Granting(p))
    ensures forall q :: Yields(Granting(p), q) ==> q == p
  {
    assert p.action in Granting(p).actions && p.resource in Granting(p).resources;
  }

  lemma GrantedPairIsEffective(p: Permission, boundary: Option<Policy>, chain: seq<seq<Statement>>, holds: Holds)
    requires ScpAllows(chain, p.action, p.resource)
    requires boundary.Some? ==> BoundaryAllows(boundary.value.statements, p.action, p.resource)
    ensures Effective(Identity([Granting(p)]).(boundary := boundary, chain := chain), holds, p)
  {
    IdentityStatements([Granting(p)]);
    GrantingYields(p);
    assert Granting(p) in [Granting(p)];
  }

  lemma SliceIsSomeCovers(stmts: seq<Statement>, action: string, resource: string)
    ensures SliceAllows(stmts, action, resource) <==> SomeCovers(stmts, Allow, action, resource)
  {}

  /** An SCP level of any statements is sound exactly when it allows every request that its Allow
      statements reach. */
  lemma LevelIsSoundIff(level: seq<Statement>, holds: Holds)
    ensures LevelIsSound(level, holds) <==> ReachIsCovered(level, Allow)
  {
    CoverDescendsIff(level, Allow);
    if LevelIsSound(level, holds) {
      forall p: Permission, action, resource |
        SomeCovers(level, Allow, p.action, p.resource) && StandsFor(p, action, resource) && IsRequest(action, resource)
        ensures SomeCovers(level, Allow, action, resource)
      {
        var req := Identity([Granting(p)]).(boundary := None, chain := [level]);
        SliceIsSomeCovers(level, p.action, p.resource);
        GrantedPairIsEffective(p, None, [level], holds);
        assert level in req.chain;
        SliceIsSomeCovers(level, action, resource);
      }
    }
    if CoverDescends(level, Allow) {
      forall req: Inputs, p, action, resource |
        level in req.chain && Effective(req, holds, p) && StandsFor(p, action, resource) && IsRequest(action, resource)
        ensures SliceAllows(level, action, resource)
      {
        assert SliceAllows(level, p.action, p.resource);
        SliceIsSomeCovers(level, p.action, p.resource);
        SliceIsSomeCovers(level, action, resource);
      }
    }
  }

  /** So is a boundary, unless it has no statements and limits nothing. */
  lemma BoundaryIsSoundIff(boundary: Policy, holds: Holds)
    ensures BoundaryIsSound(boundary, holds) <==>
            boundary.statements == [] || ReachIsCovered(boundary.statements, Allow)
  {
    CoverDescendsIff(boundary.statements, Allow);
    if BoundaryIsSound(boundary, holds) && boundary.statements != [] {
      SoundBoundaryDescends(boundary, holds);
    }
    if boundary.statements != [] && CoverDescends(boundary.statements, Allow) {
      DescendingBoundaryIsSound(boundary, holds);
    }
  }

  lemma SoundBoundaryDescends(boundary: Policy, holds: Holds)
    requires BoundaryIsSound(boundary, holds) && boundary.statements != []
    ensures CoverDescends(boundary.statements, Allow)
  {
    var stmts := boundary.statements;
    forall p: Permission, action, resource |
      SomeCovers(stmts, Allow, p.action, p.resource) && StandsFor(p, action, resource) && IsRequest(action, resource)
      ensures SomeCovers(stmts, Allow, action, resource)
    {
      var req := Identity([Granting(p)]).(boundary := Some(boundary), chain := []);
      SliceIsSomeCovers(stmts, p.action, p.resource);
      GrantedPairIsEffective(p, Some(boundary), [], holds);
      assert req.boundary == Some(boundary);
      SliceIsSomeCovers(stmts, action, resource);
    }
  }

  lemma DescendingBoundaryIsSound(boundary: Policy, holds: Holds)
    requires CoverDescends(boundary.statements, Allow) && boundary.statements != []
    ensures BoundaryIsSound(boundary, holds)
  {
    forall req: Inputs, p, action, resource |
      req.boundary == Some(boundary) && Effective(req, holds, p) && StandsFor(p, action, resource)
      && IsRequest(action, resource)
      ensures BoundaryAllows(boundary.statements, action, resource)
    {
      SliceIsSomeCovers(boundary.statements, p.action, p.resource);
      SliceIsSomeCovers(boundary.statements, action, resource);
    }
  }

  /** And a session policy. */
  lemma SessionIsSoundIff(session: Policy, holds: Holds)
    ensures SessionIsSound(session, holds) <==> ReachIsCovered(session.statements, Allow)
  {
    CoverDescendsIff(session.statements, Allow);
    if SessionIsSound(session, holds) {
      SoundSessionDescends(session, holds);
    }
    if CoverDescends(session.statements, Allow) {
      DescendingSessionIsSound(session, holds);
    }
  }

  lemma SessionKeepsIff(session: Policy, action: string, resource: string)
    ensures SessionAllows(Some(session), action, resource).Allowed? <==>
            SomeCovers(session.statements, Allow, action, resource)
    ensures Keeps(Some(session), Permission(action, resource)) <==>
            SomeCovers(session.statements, Allow, action, resource)
  {
    SliceIsSomeCovers(session.statements, action, resource);
  }

  lemma SoundSessionDescends(session: Policy, holds: Holds)
    requires SessionIsSound(session, holds)
    ensures CoverDescends(session.statements, Allow)
  {
    forall p: Permission, action, resource |
      SomeCovers(session.statements, Allow, p.action, p.resource) && StandsFor(p, action, resource)
      && IsRequest(action, resource)
      ensures SomeCovers(session.statements, Allow, action, resource)
    {
      GrantedPairIsEffective(p, None, [], holds);
      SessionKeepsIff(session, p.action, p.resource);
      SessionKeepsIff(session, action, resource);
    }
  }

  lemma DescendingSessionIsSound(session: Policy, holds: Holds)
    requires CoverDescends(session.statements, Allow)
    ensures SessionIsSound(session, holds)
  {
    forall req, p, action, resource |
      Effective(req, holds, p) && Keeps(Some(session), p) && StandsFor(p, action, resource)
      && IsRequest(action, resource)
      ensures SessionAllows(Some(session), action, resource).Allowed?
    {
      SessionKeepsIff(session, p.action, p.resource);
      SessionKeepsIff(session, action, resource);
    }
  }

  // ----- Deny statements -----

  function Denying(allows: seq<Statement>, denies: seq<Statement>): Inputs {
    Identity(allows + denies)
  }

  predicate AllDeny(denies: seq<Statement>) {
    forall d | d in denies :: d.effect.Deny?
  }

  /** The statements whose conditions all hold in the evaluation context. */
  function Holding(stmts: seq<Statement>, holds: Holds): (kept: seq<Statement>)
    ensures forall s :: s in kept <==> s in stmts && forall c | c in s.conditions :: holds(c)
  {
    if stmts == [] then []
    else
      assert stmts == [stmts[0]] + stmts[1..];
      (if forall c | c in stmts[0].conditions :: holds(c) then [stmts[0]] else []) + Holding(stmts[1..], holds)
  }

  predicate ParsedAllows(allows: seq<Statement>) {
    forall s | s in allows :: s.effect.Allow? && Parsed(s)
  }

  predicate Denied(denies: seq<Statement>, action: string, resource: string) {
    SomeCovers(denies, Deny, action, resource)
  }

  /** Whatever the Allow statements beside them are, the denials hide no request they do not deny. */
  ghost predicate DenyIsLossless(denies: seq<Statement>, holds: Holds) {
    forall allows, action, resource ::
      ParsedAllows(allows) && IsRequest(action, resource)
      && Permitted(Denying(allows, denies), holds, action, resource)
      ==> Reported(Denying(allows, denies), holds, action, resource)
  }

  /** Whatever the Allow statements beside them are, no request they deny is reported. */
  ghost predicate DenyIsTight(denies: seq<Statement>, holds: Holds) {
    forall allows, action, resource ::
      ParsedAllows(allows) && IsRequest(action, resource)
      && Reported(Denying(allows, denies), holds, action, resource)
      ==> !Denied(Holding(denies, holds), action, resource)
  }

  lemma DenyingVerdict(allows: seq<Statement>, denies: seq<Statement>, holds: Holds, action: string, resource: string)
    requires ParsedAllows(allows) && AllDeny(denies)
    ensures EvaluateDeny(AllStatements(Denying(allows, denies).identity), action, resource, holds).ExplicitDeny? <==>
            Denied(Holding(denies, holds), action, resource)
    ensures forall s :: s in AllStatements(Denying(allows, denies).identity) <==> s in allows || s in denies
  {
    IdentityStatements(allows + denies);
    assert forall s :: s in allows + denies <==> s in allows || s in denies;
    assert forall d :: d in denies ==> (Denies(d, action, resource, holds) <==>
                         d in Holding(denies, holds) && Covers(d, action, resource));
  }

  /** Any Deny statements together hide no permitted request exactly when those of them whose
      conditions hold deny every request that they reach. */
  lemma DenyIsLosslessIff(denies: seq<Statement>, holds: Holds)
    requires AllDeny(denies)
    ensures DenyIsLossless(denies, holds) <==> ReachIsCovered(Holding(denies, holds), Deny)
  {
    CoverDescendsIff(Holding(denies, holds), Deny);
    if CoverDescends(Holding(denies, holds), Deny) {
      forall allows, action, resource |
        ParsedAllows(allows) && IsRequest(action, resource)
        && Permitted(Denying(allows, denies), holds, action, resource)
        ensures Reported(Denying(allows, denies), holds, action, resource)
      {
        PermittedIsReported(allows, denies, holds, action, resource);
      }
    }
    if DenyIsLossless(denies, holds) {
      forall p: Permission, action, resource |
        SomeCovers(Holding(denies, holds), Deny, p.action, p.resource) && StandsFor(p, action, resource)
        && IsRequest(action, resource)
        ensures SomeCovers(Holding(denies, holds), Deny, action, resource)
      {
        DeniedPairHides(p, denies, holds, action, resource);
      }
    }
  }

  lemma PermittedIsReported(allows: seq<Statement>, denies: seq<Statement>, holds: Holds, action: string,
                            resource: string)
    requires AllDeny(denies) && CoverDescends(Holding(denies, holds), Deny) && ParsedAllows(allows)
    requires IsRequest(action, resource) && Permitted(Denying(allows, denies), holds, action, resource)
    ensures Reported(Denying(allows, denies), holds, action, resource)
  {
    var req := Denying(allows, denies);
    DenyingVerdict(allows, denies, holds, action, resource);
    var s :| s in AllStatements(req.identity) && s.effect.Allow? && Covers(s, action, resource);
    var p := CandidateFor(s, action, resource);
    DenyingVerdict(allows, denies, holds, p.action, p.resource);
    assert Effective(req, holds, p);
  }

  /** With one pair granted, a denial that covers it leaves nothing to report. */
  lemma DeniedPairHides(p: Permission, denies: seq<Statement>, holds: Holds, action: string, resource: string)
    requires AllDeny(denies) && Denied(Holding(denies, holds), p.action, p.resource) && StandsFor(p, action, resource)
    ensures ParsedAllows([Granting(p)]) && !Reported(Denying([Granting(p)], denies), holds, action, resource)
    ensures !Denied(Holding(denies, holds), action, resource) ==>
              Permitted(Denying([Granting(p)], denies), holds, action, resource)
  {
    var req := Denying([Granting(p)], denies);
    GrantingYields(p);
    DenyingVerdict([Granting(p)], denies, holds, action, resource);
    DenyingVerdict([Granting(p)], denies, holds, p.action, p.resource);
    assert forall q :: IsCandidate(req, q) ==> q == p;
    CoversIsAdmits(Granting(p), action, resource);
    assert p.action in [p.action] && p.resource in [p.resource] && Granting(p) in [Granting(p)];
  }

  /** No pair the denials miss stands for a request they deny. */
  ghost predicate MissDescends(denies: seq<Statement>) {
    forall p: Permission, action, resource ::
      !Denied(denies, p.action, p.resource) && StandsFor(p, action, resource) && IsRequest(action, resource)
      ==> !Denied(denies, action, resource)
  }

  lemma TightIsMissDescends(denies: seq<Statement>, holds: Holds)
    requires AllDeny(denies)
    ensures DenyIsTight(denies, holds) <==> MissDescends(Holding(denies, holds))
  {
    if MissDescends(Holding(denies, holds)) {
      forall allows, action, resource |
        ParsedAllows(allows) && IsRequest(action, resource)
        && Reported(Denying(allows, denies), holds, action, resource)
        ensures !Denied(Holding(denies, holds), action, resource)
      {
        var p :| Effective(Denying(allows, denies), holds, p) && StandsFor(p, action, resource);
        DenyingVerdict(allows, denies, holds, p.action, p.resource);
      }
    }
    if DenyIsTight(denies, holds) {
      forall p: Permission, action, resource |
        !Denied(Holding(denies, holds), p.action, p.resource) && StandsFor(p, action, resource)
        && IsRequest(action, resource)
        ensures !Denied(Holding(denies, holds), action, resource)
      {
        MissedPairIsReported(p, denies, holds, action, resource);
      }
    }
  }

  lemma MissedPairIsReported(p: Permission, denies: seq<Statement>, holds: Holds, action: string, resource: string)
    requires AllDeny(denies) && !Denied(Holding(denies, holds), p.action, p.resource) && StandsFor(p, action, resource)
    ensures ParsedAllows([Granting(p)]) && Reported(Denying([Granting(p)], denies), holds, action, resource)
  {
    var req := Denying([Granting(p)], denies);
    GrantingYields(p);
    DenyingVerdict([Granting(p)], denies, holds, p.action, p.resource);
    assert Granting(p) in [Granting(p)] && Effective(req, holds, p);
  }

  /** The field admits no concrete name. */
  ghost predicate AdmitsNoName(f: Field) {
    forall name :: !HasWildcard(name) ==> !Admits(f, name)
  }

  /** A Deny of any form lets no denied request be reported exactly when the refusals of both of
      its fields descend, or it denies nothing, be it that a condition fails. */
  lemma OneDenyIsTightIff(deny: Statement, holds: Holds)
    requires deny.effect.Deny?
    ensures DenyIsTight([deny], holds) <==>
      || HasFailingCondition(deny, holds)
      || AdmitsNoName(ActionField(deny)) || AdmitsNoName(ResourceField(deny))
      || (RefusalDescends(ActionField(deny)) && RefusalDescends(ResourceField(deny)))
  {
    var f, g := ActionField(deny), ResourceField(deny);
    TightIsMissDescends([deny], holds);
    assert [deny][1..] == [];
    if HasFailingCondition(deny, holds) {
      assert Holding([deny], holds) == [];
      return;
    }
    assert Holding([deny], holds) == [deny];
    if AdmitsNoName(f) || AdmitsNoName(g) || (RefusalDescends(f) && RefusalDescends(g)) {
      FieldwiseMisses(deny);
    }
    if MissDescends([deny]) && !AdmitsNoName(f) && !AdmitsNoName(g) {
      MissesFieldwise(deny);
    }
  }

  lemma FieldwiseMisses(deny: Statement)
    requires
      || AdmitsNoName(ActionField(deny)) || AdmitsNoName(ResourceField(deny))
      || (RefusalDescends(ActionField(deny)) && RefusalDescends(ResourceField(deny)))
    requires deny.effect.Deny?
    ensures MissDescends([deny])
  {
    var f, g := ActionField(deny), ResourceField(deny);
    RefusalDescendsIff(f);
    RefusalDescendsIff(g);
    forall p: Permission, action, resource |
      !Denied([deny], p.action, p.resource) && StandsFor(p, action, resource) && IsRequest(action, resource)
      ensures !Denied([deny], action, resource)
    {
      OneDenied(deny, p.action, p.resource);
      OneDenied(deny, action, resource);
      assert Matches(true, p.action, action) && Matches(false, p.resource, resource);
    }
  }

  lemma OneDenied(deny: Statement, action: string, resource: string)
    requires deny.effect.Deny?
    ensures Denied([deny], action, resource) <==>
            Admits(ActionField(deny), action) && Admits(ResourceField(deny), resource)
  {
    assert deny in [deny];
    CoversIsAdmits(deny, action, resource);
  }

  lemma MissesFieldwise(deny: Statement)
    requires deny.effect.Deny? && MissDescends([deny])
    requires !AdmitsNoName(ActionField(deny)) && !AdmitsNoName(ResourceField(deny))
    ensures RefusalDescends(ActionField(deny)) && RefusalDescends(ResourceField(deny))
  {
    var f, g := ActionField(deny), ResourceField(deny);
    var a: string :| !HasWildcard(a) && Admits(f, a);
    var r: string :| !HasWildcard(r) && Admits(g, r);
    MatchesOneself(true, a);
    MatchesOneself(false, r);
    RefusalDescendsIff(f);
    RefusalDescendsIff(g);
    forall action, resource
      ensures Denied([deny], action, resource) <==> Admits(f, action) && Admits(g, resource)
    {
      OneDenied(deny, action, resource);
    }
    forall inner, name | !HasWildcard(name) && !Admits(f, inner) && Matches(true, inner, name)
      ensures !Admits(f, name)
    {
      var p := Permission(inner, r);
      assert !Denied([deny], p.action, p.resource) && StandsFor(p, name, r) && IsRequest(name, r);
    }
    forall inner, name | !HasWildcard(name) && !Admits(g, inner) && Matches(false, inner, name)
      ensures !Admits(g, name)
    {
      var p := Permission(a, inner);
      assert !Denied([deny], p.action, p.resource) && StandsFor(p, a, name) && IsRequest(a, name);
    }
  }

  predicate OnlyLists(denies: seq<Statement>) {
    forall d | d in denies :: d.notActions == [] && d.notResources == []
  }

  /** Each pair of nothing but stars that stands for a denied request is itself denied. */
  ghost predicate StarPairsDenied(denies: seq<Statement>) {
    forall n, m, action, resource ::
      StandsFor(Permission(Stars(n), Stars(m)), action, resource) && IsRequest(action, resource)
      && Denied(denies, action, resource)
      ==> Denied(denies, Stars(n), Stars(m))
  }

  lemma StarPairsSuffice(denies: seq<Statement>)
    requires OnlyLists(denies)
    ensures MissDescends(denies) <==> StarPairsDenied(denies)
  {
    if MissDescends(denies) {
      forall n, m, action, resource |
        StandsFor(Permission(Stars(n), Stars(m)), action, resource) && IsRequest(action, resource)
        && Denied(denies, action, resource)
        ensures Denied(denies, Stars(n), Stars(m))
      {
        var p := Permission(Stars(n), Stars(m));
        assert !Denied(denies, p.action, p.resource) ==> !Denied(denies, action, resource);
      }
    }
    if StarPairsDenied(denies) {
      forall p: Permission, action, resource |
        StandsFor(p, action, resource) && IsRequest(action, resource) && Denied(denies, action, resource)
        ensures Denied(denies, p.action, p.resource)
      {
        var n, m := |p.action|, |p.resource|;
        StandInStars(p, action, resource);
        assert Denied(denies, Stars(n), Stars(m));
        DeniedByStars(denies, p);
      }
    }
  }

  /** Any Deny statements with Action and Resource lists together let no denied request be
      reported exactly when they deny the pairs of stars. */
  lemma ListedDenyIsTightIff(denies: seq<Statement>, holds: Holds)
    requires AllDeny(denies) && OnlyLists(Holding(denies, holds))
    ensures DenyIsTight(denies, holds) <==> StarPairsDenied(Holding(denies, holds))
  {
    TightIsMissDescends(denies, holds);
    StarPairsSuffice(Holding(denies, holds));
  }

  lemma StandInStars(p: Permission, action: string, resource: string)
    requires StandsFor(p, action, resource)
    ensures StandsFor(Permission(Stars(|p.action|), Stars(|p.resource|)), action, resource)
  {
    if p.action == "" { EmptyReachesEmpty(true, action); }
    if p.resource == "" { EmptyReachesEmpty(false, resource); }
    StarsReachAll(true, |p.action|, action);
    StarsReachAll(false, |p.resource|, resource);
  }

  lemma DeniedByStars(denies: seq<Statement>, p: Permission)
    requires OnlyLists(denies) && Denied(denies, Stars(|p.action|), Stars(|p.resource|))
    ensures Denied(denies, p.action, p.resource)
  {
    var d :| d in denies && d.effect.Deny? && Covers(d, Stars(|p.action|), Stars(|p.resource|));
    CoversIsAdmits(d, Stars(|p.action|), Stars(|p.resource|));
    CoversIsAdmits(d, p.action, p.resource);
    ListedStarsSpeak(ActionField(d), p.action);
    ListedStarsSpeak(ResourceField(d), p.resource);
  }

  lemma ListedStarsSpeak(f: Field, text: string)
    requires f.excluded == [] && Admits(f, Stars(|text|))
    ensures Admits(f, text)
  {
    if f.listed != [] {
      var p :| p in f.listed && Matches(f.fold, p, Stars(|text|));
      StarsSpeak(f.fold, p, text);
    }
  }

  // ----- one pattern to a field -----

  /** Every action but those of one pattern, on every resource. */
  function AllBut(effect: Effect, action: string): Statement {
    Statement(None, effect, [], [action], ["*"], [], [])
  }

  /** Every action, on every resource but those of one pattern. */
  function AllButOn(effect: Effect, resource: string): Statement {
    Statement(None, effect, ["*"], [], [], [resource], [])
  }

  /** A field that lists `*` is no restriction. */
  lemma StarField(f: Field)
    requires f.excluded == [] && f.listed == ["*"]
    ensures FieldDescends(f) && RefusalDescends(f) && !AdmitsNoText(f) && !AdmitsNoName(f)
  {
    OneDescendsIff(f.fold, "*");
    OneCoversStarsIff(f.fold, "*");
    ListedField(f);
  }

  lemma ListedField(f: Field)
    requires f.excluded == [] && f.listed != []
    ensures !AdmitsNoText(f) && !AdmitsNoName(f)
  {
    var name := LiteralOf(f.fold, f.listed[0]);
    assert Any(f.fold, f.listed, name);
  }

  /** A field that excludes one pattern. */
  lemma ExcludedField(f: Field, pattern: string)
    requires f.excluded == [pattern]
    ensures FieldDescends(f) <==> NearlyAll(pattern)
    ensures RefusalDescends(f) <==> '?' !in pattern
    ensures AdmitsNoText(f) ==> NearlyAll(pattern)
    ensures AdmitsNoName(f) ==> '?' !in pattern
  {
    OneDescendsIff(f.fold, pattern);
    OneCoversStarsIff(f.fold, pattern);
    if '?' in pattern {
      var name := DroppedName(f.fold, pattern);
      assert Admits(f, name);
    }
  }

  /** An SCP that allows one action pattern on one resource pattern is sound exactly when
      neither has a `?`. */
  lemma ListingLevelIsSoundIff(action: string, resource: string, holds: Holds)
    ensures LevelIsSound([Listing(Allow, action, resource)], holds) <==> '?' !in action && '?' !in resource
  {
    var s := Listing(Allow, action, resource);
    LevelIsSoundIff([s], holds);
    OneReachIsCoveredIff(s);
    ListedField(ActionField(s));
    ListedField(ResourceField(s));
    OneDescendsIff(true, action);
    OneDescendsIff(false, resource);
  }

  /** An SCP that allows all but one pattern is sound exactly when that pattern matches
      everything, or everything but the empty name. */
  lemma AllButLevelIsSoundIff(pattern: string, holds: Holds)
    ensures LevelIsSound([AllBut(Allow, pattern)], holds) <==> NearlyAll(pattern)
    ensures LevelIsSound([AllButOn(Allow, pattern)], holds) <==> NearlyAll(pattern)
  {
    var s, t := AllBut(Allow, pattern), AllButOn(Allow, pattern);
    LevelIsSoundIff([s], holds);
    LevelIsSoundIff([t], holds);
    OneReachIsCoveredIff(s);
    OneReachIsCoveredIff(t);
    StarField(ResourceField(s));
    StarField(ActionField(t));
    ExcludedField(ActionField(s), pattern);
    ExcludedField(ResourceField(t), pattern);
  }

  /** A Deny on one action pattern and one resource pattern hides no permitted request exactly
      when neither has a `?`, and lets no denied request be reported exactly when both match
      everything, or everything but the empty name. */
  lemma ListingDenyIff(action: string, resource: string, holds: Holds)
    ensures DenyIsLossless([Listing(Deny, action, resource)], holds) <==> '?' !in action && '?' !in resource
    ensures DenyIsTight([Listing(Deny, action, resource)], holds) <==> NearlyAll(action) && NearlyAll(resource)
  {
    var d := Listing(Deny, action, resource);
    assert [d][1..] == [] && Holding([d], holds) == [d];
    DenyIsLosslessIff([d], holds);
    OneReachIsCoveredIff(d);
    OneDenyIsTightIff(d, holds);
    ListedField(ActionField(d));
    ListedField(ResourceField(d));
    OneDescendsIff(true, action);
    OneDescendsIff(false, resource);
    OneCoversStarsIff(true, action);
    OneCoversStarsIff(false, resource);
  }

  /** A Deny with NotAction is the other way round. */
  lemma NotActionDenyIff(pattern: string, holds: Holds)
    ensures DenyIsLossless([AllBut(Deny, pattern)], holds) <==> NearlyAll(pattern)
    ensures DenyIsTight([AllBut(Deny, pattern)], holds) <==> '?' !in pattern
  {
    var d := AllBut(Deny, pattern);
    assert [d][1..] == [] && Holding([d], holds) == [d];
    DenyIsLosslessIff([d], holds);
    OneReachIsCoveredIff(d);
    OneDenyIsTightIff(d, holds);
    StarField(ResourceField(d));
    ExcludedField(ActionField(d), pattern);
  }

  /** So is a Deny with NotResource. */
  lemma NotResourceDenyIff(pattern: string, holds: Holds)
    ensures DenyIsLossless([AllButOn(Deny, pattern)], holds) <==> NearlyAll(pattern)
    ensures DenyIsTight([AllButOn(Deny, pattern)], holds) <==> '?' !in pattern
  {
    var d := AllButOn(Deny, pattern);
    assert [d][1..] == [] && Holding([d], holds) == [d];
    DenyIsLosslessIff([d], holds);
    OneReachIsCoveredIff(d);
    OneDenyIsTightIff(d, holds);
    StarField(ActionField(d));
    ExcludedField(ResourceField(d), pattern);
  }

  // ----- Allow statements and pairs -----

  /** An Allow statement on its own reports only requests it covers exactly when it has no
      NotAction and no NotResource, which the engine widens to `*`. */
  lemma AllowIsExactIff(allow: Statement, holds: Holds)
    requires allow.effect.Allow? && Parsed(allow)
    ensures (forall action, resource :: IsRequest(action, resource) ==>
               (Reported(Identity([allow]), holds, action, resource) <==> Covers(allow, action, resource)))
        <==> allow.notActions == [] && allow.notResources == []
  {
    var req := Identity([allow]);
    IdentityStatements([allow]);
    assert forall p :: Effective(req, holds, p) <==> Yields(allow, p);
    if allow.notActions == [] && allow.notResources == [] {
      forall action, resource | Covers(allow, action, resource) ensures Reported(req, holds, action, resource) {
        var p := CandidateFor(allow, action, resource);
      }
    } else {
      var p := WidestCandidate(allow);
      var action := LiteralOf(true, if allow.notActions != [] then allow.notActions[0] else p.action);
      var resource := LiteralOf(false, if allow.notResources != [] then allow.notResources[0] else p.resource);
      StarStandsForAll(action, resource);
      assert StandsFor(p, action, resource);
      assert Reported(req, holds, action, resource) && !Covers(allow, action, resource);
    }
  }

  /** Some candidate, with `*` where the statement excludes. */
  lemma WidestCandidate(allow: Statement) returns (p: Permission)
    requires allow.effect.Allow? && Parsed(allow)
    ensures Yields(allow, p)
    ensures (allow.notActions != [] ==> p.action == "*") && (allow.notResources != [] ==> p.resource == "*")
  {
    p := Permission(CandidateActions(allow)[0], CandidateResources(allow)[0]);
  }

  /** No statement tells the pair from a request it stands for. */
  ghost predicate PairIsExact(p: Permission) {
    forall s, action, resource :: StandsFor(p, action, resource) && IsRequest(action, resource) ==>
      (Covers(s, p.action, p.resource) <==> Covers(s, action, resource))
  }

  /** A pair gets the right verdict from every statement exactly when it has no wildcard. */
  lemma PairIsExactIff(p: Permission)
    ensures PairIsExact(p) <==> !HasWildcard(p.action) && !HasWildcard(p.resource)
  {
    if !HasWildcard(p.action) && !HasWildcard(p.resource) {
      forall s, action, resource | StandsFor(p, action, resource)
        ensures Covers(s, p.action, p.resource) <==> Covers(s, action, resource)
      {
        LiteralTransparent(s, p.action, p.resource, action, resource);
      }
    } else {
      var action := LiteralOf(true, p.action);
      var resource := LiteralOf(false, p.resource);
      var s := Listing(Allow, action, resource);
      MatchesOneself(true, action);
      MatchesOneself(false, resource);
      assert action in s.actions && resource in s.resources;
      if HasWildcard(p.action) { LiteralMissesPatterns(action, p.action); }
      assert StandsFor(p, action, resource) && Covers(s, action, resource) && !Covers(s, p.action, p.resource);
    }
  }
}
