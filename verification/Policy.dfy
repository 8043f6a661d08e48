/** Parsed policies and the five checks that read them. */
module Policy {
  import opened Wrappers
  import opened Glob
  import opened ActionMatcher
  import opened ResourceMatcher

  datatype Effect = Allow | Deny

  datatype Condition = Condition(operator: string, key: string, values: seq<string>)

  datatype Statement = Statement(
    sid: Option<string>,
    effect: Effect,
    actions: seq<string>,
    notActions: seq<string>,
    resources: seq<string>,
    notResources: seq<string>,
    conditions: seq<Condition>)

  datatype Policy = Policy(version: string, statements: seq<Statement>)

  /** The value of each condition under the fixed evaluation context. */
  type Holds = Condition -> bool

  datatype EvalResult = ExplicitDeny | NoExplicitDeny

  datatype SessionConstraint = Allowed | Constrained | Unconstrained

  predicate ActionCovered(stmt: Statement, action: string) {
    if stmt.notActions != [] then !exists p | p in stmt.notActions :: ActionMatches(p, action)
    else if stmt.actions != [] then exists p | p in stmt.actions :: ActionMatches(p, action)
    else true
  }

  predicate ResourceCovered(stmt: Statement, resource: string) {
    if stmt.notResources != [] then !exists p | p in stmt.notResources :: ResourceMatches(p, resource)
    else if stmt.resources != [] then exists p | p in stmt.resources :: ResourceMatches(p, resource)
    else true
  }

  predicate Covers(stmt: Statement, action: string, resource: string) {
    ActionCovered(stmt, action) && ResourceCovered(stmt, resource)
  }

  predicate Denies(stmt: Statement, action: string, resource: string, holds: Holds) {
    && stmt.effect.Deny?
    && Covers(stmt, action, resource)
    && forall c | c in stmt.conditions :: holds(c)
  }

  function EvaluateDeny(stmts: seq<Statement>, action: string, resource: string, holds: Holds): EvalResult {
    if exists stmt | stmt in stmts :: Denies(stmt, action, resource, holds) then ExplicitDeny else NoExplicitDeny
  }

  predicate SliceAllows(stmts: seq<Statement>, action: string, resource: string) {
    exists stmt | stmt in stmts :: stmt.effect.Allow? && Covers(stmt, action, resource)
  }

  predicate ScpAllows(chain: seq<seq<Statement>>, action: string, resource: string) {
    forall level | level in chain :: SliceAllows(level, action, resource)
  }

  predicate BoundaryAllows(stmts: seq<Statement>, action: string, resource: string) {
    stmts == [] || SliceAllows(stmts, action, resource)
  }

  function SessionAllows(session: Option<Policy>, action: string, resource: string): SessionConstraint {
    match session
    case None => Unconstrained
    case Some(policy) =>
      if SliceAllows(policy.statements, action, resource) then Allowed else Constrained
  }

  // ----- a check on a symbolic pair against the same check on what the pair stands for -----

  /** The statement has no NotAction or NotResource, and none of its `?` can stand on a `*`
      of the symbolic pair. */
  predicate Liftable(stmt: Statement, action: string, resource: string) {
    && stmt.notActions == [] && stmt.notResources == []
    && (forall p | p in stmt.actions :: '?' !in p || '*' !in action)
    && (forall p | p in stmt.resources :: '?' !in p || '*' !in resource)
  }

  lemma CoverLifts(stmt: Statement, a: string, r: string, action: string, resource: string)
    requires Liftable(stmt, a, r) && Covers(stmt, a, r)
    requires ActionMatches(a, action) && ResourceMatches(r, resource)
    ensures Covers(stmt, action, resource)
  {
    if stmt.actions != [] {
      var p :| p in stmt.actions && ActionMatches(p, a);
      ActionTextIncludes(p, a, action);
    }
    if stmt.resources != [] {
      var p :| p in stmt.resources && ResourceMatches(p, r);
      ResourceTextIncludes(p, r, resource);
    }
  }

  lemma SliceLifts(stmts: seq<Statement>, a: string, r: string, action: string, resource: string)
    requires forall s :: s in stmts && s.effect.Allow? ==> Liftable(s, a, r)
    requires SliceAllows(stmts, a, r)
    requires ActionMatches(a, action) && ResourceMatches(r, resource)
    ensures SliceAllows(stmts, action, resource)
  {
    var stmt :| stmt in stmts && stmt.effect.Allow? && Covers(stmt, a, r);
    CoverLifts(stmt, a, r, action, resource);
  }

  /** On a literal pair no statement, NotAction and NotResource included, tells the pair from
      the action and resource it stands for. */
  lemma LiteralTransparent(stmt: Statement, a: string, r: string, action: string, resource: string)
    requires !HasWildcard(a) && !HasWildcard(r)
    requires ActionMatches(a, action) && ResourceMatches(r, resource)
    ensures Covers(stmt, a, r) <==> Covers(stmt, action, resource)
  {
    forall p ensures ActionMatches(p, a) <==> ActionMatches(p, action) {
      LiteralActionTransparent(p, a, action);
    }
  }
}
