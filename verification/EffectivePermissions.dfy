/** The Deny, SCP, boundary pipeline over symbolic (action, resource) pairs. */
module EffectivePermissions {
  import opened Wrappers
  import opened Policy

  datatype Permission = Permission(action: string, resource: string)

  datatype Inputs = Inputs(identity: seq<Policy>, boundary: Option<Policy>, chain: seq<seq<Statement>>)

  function AllStatements(identity: seq<Policy>): seq<Statement> {
    if identity == [] then [] else identity[0].statements + AllStatements(identity[1..])
  }

  function CandidateActions(stmt: Statement): seq<string> {
    if stmt.actions != [] then stmt.actions else if stmt.notActions != [] then ["*"] else []
  }

  function CandidateResources(stmt: Statement): seq<string> {
    if stmt.resources != [] then stmt.resources else if stmt.notResources != [] then ["*"] else []
  }

  predicate Yields(stmt: Statement, p: Permission) {
    stmt.effect.Allow? && p.action in CandidateActions(stmt) && p.resource in CandidateResources(stmt)
  }

  predicate IsCandidate(req: Inputs, p: Permission) {
    exists stmt | stmt in AllStatements(req.identity) :: Yields(stmt, p)
  }

  predicate WithinLimits(req: Inputs, action: string, resource: string) {
    && ScpAllows(req.chain, action, resource)
    && (req.boundary.Some? ==> BoundaryAllows(req.boundary.value.statements, action, resource))
  }

  predicate Passes(req: Inputs, holds: Holds, p: Permission) {
    && EvaluateDeny(AllStatements(req.identity), p.action, p.resource, holds).NoExplicitDeny?
    && WithinLimits(req, p.action, p.resource)
  }

  predicate Effective(req: Inputs, holds: Holds, p: Permission) {
    IsCandidate(req, p) && Passes(req, holds, p)
  }

  // ----- the order of the output -----

  predicate TextLess(a: string, b: string) {
    b != "" && (a == "" || a[0] < b[0] || (a[0] == b[0] && TextLess(a[1..], b[1..])))
  }

  predicate Less(p: Permission, q: Permission) {
    TextLess(p.action, q.action) || (p.action == q.action && TextLess(p.resource, q.resource))
  }

  predicate Sorted(ps: seq<Permission>) {
    forall i, j :: 0 <= i < j < |ps| ==> !Less(ps[j], ps[i])
  }

  predicate StrictlyIncreasing(ps: seq<Permission>) {
    forall i, j :: 0 <= i < j < |ps| ==> Less(ps[i], ps[j])
  }

  lemma {:induction false} TextOrder(a: string, b: string)
    ensures !(TextLess(a, b) && TextLess(b, a))
    ensures TextLess(a, b) || TextLess(b, a) || a == b
    ensures !TextLess(a, a)
  {
    if a != "" {
      TextOrder(a[1..], a[1..]);
      if b != "" {
        TextOrder(a[1..], b[1..]);
        assert a == [a[0]] + a[1..] && b == [b[0]] + b[1..];
      }
    }
  }

  lemma {:induction false} TextLessTransitive(a: string, b: string, c: string)
    requires TextLess(a, b) && TextLess(b, c)
    ensures TextLess(a, c)
  {
    if a != "" && a[0] == b[0] == c[0] {
      TextLessTransitive(a[1..], b[1..], c[1..]);
    }
  }

  lemma LessIsTotalOrder(p: Permission, q: Permission)
    ensures !(Less(p, q) && Less(q, p)) && (Less(p, q) || Less(q, p) || p == q)
  {
    TextOrder(p.action, q.action);
    TextOrder(p.resource, q.resource);
  }

  lemma LessTransitive(p: Permission, q: Permission, r: Permission)
    requires !Less(q, p) && !Less(r, q)
    ensures !Less(r, p)
    ensures Less(p, q) || Less(q, r) ==> Less(p, r)
  {
    LessIsTotalOrder(p, q);
    LessIsTotalOrder(q, r);
    LessIsTotalOrder(p, r);
    if Less(p, q) && Less(q, r) {
      if TextLess(p.action, q.action) && TextLess(q.action, r.action) {
        TextLessTransitive(p.action, q.action, r.action);
      } else if p.action == q.action == r.action {
        TextLessTransitive(p.resource, q.resource, r.resource);
      }
    }
  }

  /** The smaller text is a prefix of the other, or smaller at the first place they differ. */
  ghost predicate Precedes(a: string, b: string) {
    exists k: nat :: DiffersAt(a, b, k)
  }

  ghost predicate DiffersAt(a: string, b: string, k: nat) {
    k <= |a| && k < |b| && a[..k] == b[..k] && (k == |a| || a[k] < b[k])
  }

  lemma {:induction false} TextLessIff(a: string, b: string)
    ensures TextLess(a, b) <==> Precedes(a, b)
  {
    if a == "" || b == "" {
      assert DiffersAt(a, b, 0) <==> a == "" && b != "";
    } else {
      TextLessIff(a[1..], b[1..]);
      forall k: nat ensures DiffersAt(a, b, k) <==>
                            if k == 0 then a[0] < b[0] else a[0] == b[0] && DiffersAt(a[1..], b[1..], k - 1)
      {
        if 0 < k <= |a| && k < |b| {
          assert a[..k] == [a[0]] + a[1..][..k - 1] && b[..k] == [b[0]] + b[1..][..k - 1];
        }
      }
      if Precedes(a[1..], b[1..]) {
        var k: nat :| DiffersAt(a[1..], b[1..], k);
        assert a[0] == b[0] ==> DiffersAt(a, b, k + 1);
      }
      if Precedes(a, b) {
        var k: nat :| DiffersAt(a, b, k);
      }
      if a[0] < b[0] { assert DiffersAt(a, b, 0); }
    }
  }

  /** The vector is ordered by action, and within one action by resource. */
  lemma OrderedByActionThenResource(ps: seq<Permission>)
    ensures StrictlyIncreasing(ps) <==>
            forall i, j :: 0 <= i < j < |ps| ==>
              if ps[i].action == ps[j].action then Precedes(ps[i].resource, ps[j].resource)
              else Precedes(ps[i].action, ps[j].action)
  {
    forall p: Permission, q: Permission
      ensures Less(p, q) <==>
              if p.action == q.action then Precedes(p.resource, q.resource) else Precedes(p.action, q.action)
    {
      TextLessIff(p.action, q.action);
      TextLessIff(p.resource, q.resource);
      TextOrder(p.action, q.action);
    }
  }

  lemma HasElement(ps: seq<Permission>)
    ensures ps == [] || exists p :: p in ps
  {
    if ps != [] { assert ps[0] in ps; }
  }

  /** A strictly increasing vector is determined by its elements. */
  lemma {:induction false} IncreasingUnique(xs: seq<Permission>, ys: seq<Permission>)
    requires StrictlyIncreasing(xs) && StrictlyIncreasing(ys)
    requires forall p :: p in xs <==> p in ys
    ensures xs == ys
  {
    HasElement(xs);
    HasElement(ys);
    if xs != [] {
      assert xs[0] in ys && (ys == [] || ys[0] in xs);
      var i :| 0 <= i < |ys| && ys[i] == xs[0];
      var j :| 0 <= j < |xs| && xs[j] == ys[0];
      LessIsTotalOrder(xs[0], ys[0]);
      assert i == 0 && j == 0;
      LessIsTotalOrder(xs[0], xs[0]);
      assert xs == [xs[0]] + xs[1..] && ys == [xs[0]] + ys[1..];
      assert xs[0] !in xs[1..] && xs[0] !in ys[1..];
      forall p ensures p in xs[1..] <==> p in ys[1..] {
        assert p in xs <==> p == xs[0] || p in xs[1..];
        assert p in ys <==> p == xs[0] || p in ys[1..];
      }
      IncreasingUnique(xs[1..], ys[1..]);
    }
  }

  // ----- the computation -----

  lemma InsertSorted(ps: seq<Permission>, k: nat, x: Permission)
    requires Sorted(ps) && k <= |ps|
    requires k > 0 ==> !Less(x, ps[k - 1])
    requires k < |ps| ==> !Less(ps[k], x)
    ensures Sorted(ps[..k] + [x] + ps[k..])
  {
    forall i | 0 <= i < k ensures !Less(x, ps[i]) {
      if i < k - 1 { LessTransitive(ps[i], ps[k - 1], x); }
    }
    forall j | k <= j < |ps| ensures !Less(ps[j], x) {
      if k < j { LessTransitive(x, ps[k], ps[j]); }
    }
  }

  lemma InsertCounts(ps: seq<Permission>, k: nat, x: Permission)
    requires k <= |ps|
    ensures multiset(ps[..k] + [x] + ps[k..]) == multiset(ps) + multiset{x}
  {
    assert ps == ps[..k] + ps[k..];
  }

  method Insert(ps: seq<Permission>, x: Permission) returns (out: seq<Permission>)
    requires Sorted(ps)
    ensures Sorted(out) && multiset(out) == multiset(ps) + multiset{x}
  {
    var k := |ps|;
    while k > 0 && Less(x, ps[k - 1])
      invariant 0 <= k <= |ps|
      invariant k < |ps| ==> Less(x, ps[k])
    {
      k := k - 1;
    }
    if k < |ps| { LessIsTotalOrder(x, ps[k]); }
    InsertSorted(ps, k, x);
    InsertCounts(ps, k, x);
    out := ps[..k] + [x] + ps[k..];
  }

  /** The library sort. */
  method Sort(ps: seq<Permission>) returns (sorted: seq<Permission>)
    ensures Sorted(sorted) && multiset(sorted) == multiset(ps)
  {
    sorted := [];
    for n := 0 to |ps|
      invariant Sorted(sorted) && multiset(sorted) == multiset(ps[..n])
    {
      assert ps[..n + 1] == ps[..n] + [ps[n]];
      sorted := Insert(sorted, ps[n]);
    }
    assert ps[..|ps|] == ps;
  }

  /** Removes consecutive repetitions; on a sorted vector, all of them. */
  method Dedup(ps: seq<Permission>) returns (out: seq<Permission>)
    requires Sorted(ps)
    ensures StrictlyIncreasing(out)
    ensures forall p :: p in out <==> p in ps
  {
    out := [];
    for n := 0 to |ps|
      invariant StrictlyIncreasing(out)
      invariant out == [] <==> n == 0
      invariant n > 0 ==> out[|out| - 1] == ps[n - 1]
      invariant forall p :: p in out <==> p in ps[..n]
    {
      assert ps[..n + 1] == ps[..n] + [ps[n]];
      if out == [] || out[|out| - 1] != ps[n] {
        if out != [] {
          LessIsTotalOrder(out[|out| - 1], ps[n]);
          forall i | 0 <= i < |out| ensures Less(out[i], ps[n]) {
            if i < |out| - 1 {
              LessIsTotalOrder(out[i], out[|out| - 1]);
              LessTransitive(out[i], out[|out| - 1], ps[n]);
            }
          }
        }
        out := out + [ps[n]];
      }
    }
  }

  method ComputeEffectivePermissions(req: Inputs, holds: Holds) returns (effective: seq<Permission>)
    ensures StrictlyIncreasing(effective)
    ensures forall p :: p in effective <==> Effective(req, holds, p)
  {
    var pairs: seq<Permission> := [];
    var allowStmts: seq<Statement> := [];
    var all: seq<Statement> := [];
    for i := 0 to |req.identity|
      invariant all + AllStatements(req.identity[i..]) == AllStatements(req.identity)
      invariant forall s :: s in allowStmts <==> s in all && s.effect.Allow?
    {
      var stmts := req.identity[i].statements;
      for j := 0 to |stmts|
        invariant forall s :: s in allowStmts <==> (s in all || s in stmts[..j]) && s.effect.Allow?
      {
        assert stmts[..j + 1] == stmts[..j] + [stmts[j]];
        if stmts[j].effect.Allow? {
          allowStmts := allowStmts + [stmts[j]];
        }
      }
      assert stmts[..|stmts|] == stmts;
      assert AllStatements(req.identity[i..]) == stmts + AllStatements(req.identity[i..][1..]);
      assert req.identity[i..][1..] == req.identity[i + 1..];
      all := all + stmts;
    }
    assert all == AllStatements(req.identity);
    for i := 0 to |allowStmts|
      invariant forall p :: p in pairs <==>
                  Passes(req, holds, p) && exists s :: s in allowStmts[..i] && Yields(s, p)
    {
      assert allowStmts[..i + 1] == allowStmts[..i] + [allowStmts[i]];
      var found := PairsOf(req, holds, allowStmts[i]);
      pairs := pairs + found;
    }
    assert allowStmts[..|allowStmts|] == allowStmts;
    var sorted := Sort(pairs);
    assert forall p :: p in sorted <==> p in multiset(sorted);
    assert forall p :: p in pairs <==> p in multiset(pairs);
    effective := Dedup(sorted);
  }

  /** The two inner loops: the surviving pairs of one Allow statement. */
  method PairsOf(req: Inputs, holds: Holds, stmt: Statement) returns (pairs: seq<Permission>)
    requires stmt.effect.Allow?
    ensures forall p :: p in pairs <==> Passes(req, holds, p) && Yields(stmt, p)
  {
    pairs := [];
    var actions, resources := CandidateActions(stmt), CandidateResources(stmt);
    for i := 0 to |actions|
      invariant forall p :: p in pairs <==>
                  Passes(req, holds, p) && p.action in actions[..i] && p.resource in resources
    {
      assert actions[..i + 1] == actions[..i] + [actions[i]];
      for j := 0 to |resources|
        invariant forall p :: p in pairs <==>
                    (Passes(req, holds, p) &&
                     ((p.action in actions[..i] && p.resource in resources) ||
                      (p.action == actions[i] && p.resource in resources[..j])))
      {
        assert resources[..j + 1] == resources[..j] + [resources[j]];
        var p := Permission(actions[i], resources[j]);
        if EvaluateDeny(AllStatements(req.identity), p.action, p.resource, holds).ExplicitDeny? { continue; }
        if !ScpAllows(req.chain, p.action, p.resource) { continue; }
        if req.boundary.Some? && !BoundaryAllows(req.boundary.value.statements, p.action, p.resource) { continue; }
        pairs := pairs + [p];
      }
      assert resources[..|resources|] == resources;
    }
    assert actions[..|actions|] == actions;
  }
}
