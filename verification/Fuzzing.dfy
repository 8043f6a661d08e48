/** The combination fuzzer: every pair and triple of a family, tested against the rules. */
module Fuzzing {
  import opened Wrappers
  import opened Seqs
  import opened EffectivePermissions
  import opened RuleEngine

  // ----- combinations in lexicographic order -----

  function Prepend(i: nat, combos: seq<seq<nat>>): (out: seq<seq<nat>>)
    ensures |out| == |combos| && forall x :: 0 <= x < |out| ==> out[x] == [i] + combos[x]
  {
    seq(|combos|, x requires 0 <= x < |combos| => [i] + combos[x])
  }

  /** The k-element index lists from [from, n), each increasing. */
  function Combos(n: nat, from: nat, k: nat): seq<seq<nat>>
    decreases n - from, k
  {
    if k == 0 then [[]]
    else if from >= n then []
    else Prepend(from, Combos(n, from + 1, k - 1)) + Combos(n, from + 1, k)
  }

  predicate Increasing(c: seq<nat>) {
    forall i, j :: 0 <= i < j < |c| ==> c[i] < c[j]
  }

  predicate IsCombo(c: seq<nat>, n: nat, from: nat, k: nat) {
    |c| == k && Increasing(c) && forall i :: 0 <= i < k ==> from <= c[i] < n
  }

  predicate LexLess(c: seq<nat>, d: seq<nat>) {
    d != [] && (c == [] || c[0] < d[0] || (c[0] == d[0] && LexLess(c[1..], d[1..])))
  }

  function Binomial(n: nat, k: nat): nat {
    if k == 0 then 1 else if n == 0 then 0 else Binomial(n - 1, k - 1) + Binomial(n - 1, k)
  }

  ghost predicate InLexOrder(combos: seq<seq<nat>>) {
    forall x, y :: 0 <= x < y < |combos| ==> LexLess(combos[x], combos[y])
  }

  ghost predicate AreCombos(combos: seq<seq<nat>>, n: nat, from: nat, k: nat) {
    forall c :: c in combos <==> IsCombo(c, n, from, k)
  }

  /** The enumeration is strictly increasing in lexicographic order, so without repetition,
      and holds exactly the increasing index lists. */
  lemma {:induction false} CombosComplete(n: nat, from: nat, k: nat)
    ensures InLexOrder(Combos(n, from, k)) && AreCombos(Combos(n, from, k), n, from, k)
    decreases n - from, k
  {
    if k == 0 || from >= n {
      NoChoices(n, from, k);
    } else {
      var tails, rest := Combos(n, from + 1, k - 1), Combos(n, from + 1, k);
      CombosComplete(n, from + 1, k - 1);
      CombosComplete(n, from + 1, k);
      ChoicesKeepOrder(n, from, k, tails, rest);
      ChoicesAreCombos(n, from, k, tails, rest);
    }
  }

  lemma NoChoices(n: nat, from: nat, k: nat)
    requires k == 0 || from >= n
    ensures InLexOrder(Combos(n, from, k)) && AreCombos(Combos(n, from, k), n, from, k)
  {
    forall c ensures c in Combos(n, from, k) <==> IsCombo(c, n, from, k) {
      NoChoice(c, n, from, k);
    }
  }

  lemma ChoicesKeepOrder(n: nat, from: nat, k: nat, tails: seq<seq<nat>>, rest: seq<seq<nat>>)
    requires k > 0 && InLexOrder(tails) && InLexOrder(rest) && AreCombos(rest, n, from + 1, k)
    ensures InLexOrder(Prepend(from, tails) + rest)
  {
    forall d | d in rest ensures d != [] && from < d[0] {
      assert IsCombo(d, n, from + 1, k);
    }
    PrependKeepsOrder(from, tails, rest);
  }

  lemma ChoicesAreCombos(n: nat, from: nat, k: nat, tails: seq<seq<nat>>, rest: seq<seq<nat>>)
    requires k > 0 && from < n && AreCombos(tails, n, from + 1, k - 1) && AreCombos(rest, n, from + 1, k)
    ensures AreCombos(Prepend(from, tails) + rest, n, from, k)
  {
    forall c ensures c in Prepend(from, tails) + rest <==> IsCombo(c, n, from, k) {
      ComboCases(c, n, from, k, tails, rest);
    }
  }

  lemma NoChoice(c: seq<nat>, n: nat, from: nat, k: nat)
    requires k == 0 || from >= n
    ensures IsCombo(c, n, from, k) <==> k == 0 && c == []
  {
    if k > 0 && |c| == k {
      assert !(from <= c[0] < n);
    }
  }

  lemma PrependKeepsOrder(from: nat, tails: seq<seq<nat>>, rest: seq<seq<nat>>)
    requires forall x, y :: 0 <= x < y < |tails| ==> LexLess(tails[x], tails[y])
    requires forall x, y :: 0 <= x < y < |rest| ==> LexLess(rest[x], rest[y])
    requires forall d :: d in rest ==> d != [] && from < d[0]
    ensures var all := Prepend(from, tails) + rest;
            forall x, y :: 0 <= x < y < |all| ==> LexLess(all[x], all[y])
  {
    var all := Prepend(from, tails) + rest;
    forall x, y | 0 <= x < y < |all| ensures LexLess(all[x], all[y]) {
      if y < |tails| {
        assert all[x][1..] == tails[x] && all[y][1..] == tails[y];
      } else {
        assert all[y] == rest[y - |tails|] && all[y] in rest;
        if x >= |tails| { assert all[x] == rest[x - |tails|]; }
      }
    }
  }

  lemma ComboCases(c: seq<nat>, n: nat, from: nat, k: nat, tails: seq<seq<nat>>, rest: seq<seq<nat>>)
    requires k > 0 && from < n
    requires forall d :: d in tails <==> IsCombo(d, n, from + 1, k - 1)
    requires forall d :: d in rest <==> IsCombo(d, n, from + 1, k)
    ensures c in Prepend(from, tails) + rest <==> IsCombo(c, n, from, k)
  {
    var all := Prepend(from, tails);
    if c in all {
      var x :| 0 <= x < |all| && all[x] == c;
      assert tails[x] in tails && c == [from] + tails[x];
    }
    if IsCombo(c, n, from, k) {
      if c[0] == from {
        assert c == [from] + c[1..] && IsCombo(c[1..], n, from + 1, k - 1) && c[1..] in tails;
        var x :| 0 <= x < |tails| && tails[x] == c[1..];
        assert all[x] == c;
      } else {
        assert forall i :: 0 < i < k ==> c[0] < c[i];
        assert IsCombo(c, n, from + 1, k);
      }
    }
  }

  lemma {:induction false} CombosCount(n: nat, from: nat, k: nat)
    requires from <= n
    ensures |Combos(n, from, k)| == Binomial(n - from, k)
    decreases n - from, k
  {
    if k > 0 && from < n {
      CombosCount(n, from + 1, k - 1);
      CombosCount(n, from + 1, k);
    }
  }

  lemma {:induction false} BinomialValues(n: nat)
    ensures Binomial(n, 1) == n
    ensures 2 * Binomial(n, 2) == n * (n - 1)
    ensures 6 * Binomial(n, 3) == n * (n - 1) * (n - 2)
  {
    if n > 0 {
      BinomialValues(n - 1);
      Falling(n - 1);
    }
  }

  lemma Falling(m: nat)
    ensures (m + 1) * m == m * (m - 1) + 2 * m
    ensures (m + 1) * m * (m - 1) == m * (m - 1) * (m - 2) + 3 * (m * (m - 1))
  {
    Factors(m + 1, m, m - 1);
    Spread(m * (m - 1), m - 2);
  }

  lemma Factors(a: int, b: int, c: int)
    ensures a * b * c == b * c * a
  {}

  lemma Spread(q: int, a: int)
    ensures q * (a + 3) == q * a + 3 * q
  {}

  // ----- the generators -----

  /** `prefix` extended in turn by the k-element selections from family[from..]. */
  function Rows(family: seq<string>, prefix: seq<string>, from: nat, k: nat): seq<seq<string>>
    decreases |family| - from, k
  {
    if k == 0 then [prefix]
    else if from >= |family| then []
    else Rows(family, prefix + [family[from]], from + 1, k - 1) + Rows(family, prefix, from + 1, k)
  }

  function Pick(family: seq<string>, c: seq<nat>): seq<string> {
    seq(|c|, i requires 0 <= i < |c| => if c[i] < |family| then family[c[i]] else "")
  }

  /** Row x is the actions at the indices of combination x. */
  ghost predicate RowsFollow(rows: seq<seq<string>>, combos: seq<seq<nat>>, family: seq<string>, prefix: seq<string>) {
    |rows| == |combos| && forall x :: 0 <= x < |combos| ==> rows[x] == prefix + Pick(family, combos[x])
  }

  lemma {:induction false} RowsAreCombos(family: seq<string>, prefix: seq<string>, from: nat, k: nat)
    ensures RowsFollow(Rows(family, prefix, from, k), Combos(|family|, from, k), family, prefix)
    decreases |family| - from, k
  {
    if k == 0 {
      assert prefix + Pick(family, []) == prefix;
    } else if from < |family| {
      RowsAreCombos(family, prefix + [family[from]], from + 1, k - 1);
      RowsAreCombos(family, prefix, from + 1, k);
      RowsPrepend(Rows(family, prefix + [family[from]], from + 1, k - 1), Combos(|family|, from + 1, k - 1),
                  family, prefix, from);
      RowsJoin(Rows(family, prefix + [family[from]], from + 1, k - 1),
               Prepend(from, Combos(|family|, from + 1, k - 1)),
               Rows(family, prefix, from + 1, k), Combos(|family|, from + 1, k), family, prefix);
    }
  }

  lemma RowsPrepend(rows: seq<seq<string>>, combos: seq<seq<nat>>, family: seq<string>, prefix: seq<string>, i: nat)
    requires i < |family| && RowsFollow(rows, combos, family, prefix + [family[i]])
    ensures RowsFollow(rows, Prepend(i, combos), family, prefix)
  {
    forall x | 0 <= x < |combos| ensures rows[x] == prefix + Pick(family, [i] + combos[x]) {
      PickPrepend(family, i, combos[x]);
      Regroup(prefix, [family[i]], Pick(family, combos[x]));
    }
  }

  lemma RowsJoin(rows: seq<seq<string>>, combos: seq<seq<nat>>, rows': seq<seq<string>>, combos': seq<seq<nat>>,
                 family: seq<string>, prefix: seq<string>)
    requires RowsFollow(rows, combos, family, prefix) && RowsFollow(rows', combos', family, prefix)
    ensures RowsFollow(rows + rows', combos + combos', family, prefix)
  {}

  lemma PickPrepend(family: seq<string>, i: nat, c: seq<nat>)
    requires i < |family|
    ensures Pick(family, [i] + c) == [family[i]] + Pick(family, c)
  {}

  lemma LastRow(family: seq<string>, prefix: seq<string>, j: nat)
    requires j < |family|
    ensures Rows(family, prefix, j, 1) == [prefix + [family[j]]] + Rows(family, prefix, j + 1, 1)
  {}

  /** The innermost loop: one row for each later action. */
  method ExtendEach(family: seq<string>, prefix: seq<string>, from: nat, out: seq<seq<string>>)
    returns (out': seq<seq<string>>)
    requires from <= |family|
    ensures out' == out + Rows(family, prefix, from, 1)
  {
    out' := out;
    for j := from to |family|
      invariant out' + Rows(family, prefix, j, 1) == out + Rows(family, prefix, from, 1)
    {
      LastRow(family, prefix, j);
      Regroup(out', [prefix + [family[j]]], Rows(family, prefix, j + 1, 1));
      out' := out' + [prefix + [family[j]]];
    }
    EmptyRight(out');
  }

  /** Nested index loops; each pair is a two-element list. */
  method GeneratePairs(family: seq<string>) returns (pairs: seq<seq<string>>)
    ensures pairs == Rows(family, [], 0, 2)
  {
    pairs := ExtendByPairs(family, [], 0, []);
    EmptyLeft(Rows(family, [], 0, 2));
  }

  lemma RowsStep(family: seq<string>, prefix: seq<string>, i: nat, k: nat, out: seq<seq<string>>)
    requires i < |family| && k > 0
    ensures out + Rows(family, prefix, i, k)
         == out + Rows(family, prefix + [family[i]], i + 1, k - 1) + Rows(family, prefix, i + 1, k)
  {
    Regroup(out, Rows(family, prefix + [family[i]], i + 1, k - 1), Rows(family, prefix, i + 1, k));
  }

  /** The two inner loops. */
  method ExtendByPairs(family: seq<string>, prefix: seq<string>, from: nat, out: seq<seq<string>>)
    returns (out': seq<seq<string>>)
    requires from <= |family|
    ensures out' == out + Rows(family, prefix, from, 2)
  {
    out' := out;
    for j := from to |family|
      invariant out' + Rows(family, prefix, j, 2) == out + Rows(family, prefix, from, 2)
    {
      RowsStep(family, prefix, j, 2, out');
      out' := ExtendEach(family, prefix + [family[j]], j + 1, out');
    }
    EmptyRight(out');
  }

  /** Three nested index loops. */
  method GenerateTriples(family: seq<string>) returns (triples: seq<seq<string>>)
    ensures triples == Rows(family, [], 0, 3)
  {
    triples := ExtendByTriples(family, [], []);
    EmptyLeft(Rows(family, [], 0, 3));
  }

  method ExtendByTriples(family: seq<string>, prefix: seq<string>, out: seq<seq<string>>)
    returns (out': seq<seq<string>>)
    ensures out' == out + Rows(family, prefix, 0, 3)
  {
    out' := out;
    for i := 0 to |family|
      invariant out' + Rows(family, prefix, i, 3) == out + Rows(family, prefix, 0, 3)
    {
      RowsStep(family, prefix, i, 3, out');
      out' := ExtendByPairs(family, prefix + [family[i]], i + 1, out');
    }
    EmptyRight(out');
  }

  lemma EmptyLeft(rows: seq<seq<string>>)
    ensures [] + rows == rows
  {}

  lemma EmptyRight(rows: seq<seq<string>>)
    ensures rows + [] == rows
  {}

  // ----- the fuzzer -----

  datatype Severity = Critical | High | Medium | Low

  datatype Discovery = Discovery(actions: seq<string>, matchedRules: seq<string>, isNovel: bool, severity: Severity)

  datatype Config = Config(maxComboSize: nat, serviceFamilies: seq<seq<string>>, knownRuleIds: seq<string>)

  predicate Contains(s: string, part: string) {
    exists i: nat | i + |part| <= |s| :: part <= s[i..]
  }

  function Classify(actions: seq<string>): Severity {
    if exists a | a in actions :: a == "*" || a == "iam:*" then Critical
    else if exists a | a in actions ::
              "iam:Create" <= a || "iam:Attach" <= a || "iam:Put" <= a || Contains(a, "PassRole") then High
    else Medium
  }

  function PermissionsOf(actions: seq<string>): seq<Permission> {
    seq(|actions|, i requires 0 <= i < |actions| => Permission(actions[i], "*"))
  }

  function RuleIds(matches: seq<MatchedRule>): seq<string> {
    seq(|matches|, i requires 0 <= i < |matches| => matches[i].ruleId)
  }

  lemma RuleIdsReported(matches: seq<MatchedRule>)
    ensures forall id :: id in RuleIds(matches) <==> RuleIdReported(matches, id)
  {
    forall m | m in matches ensures m.ruleId in RuleIds(matches) {
      var i :| 0 <= i < |matches| && matches[i] == m;
      assert RuleIds(matches)[i] == m.ruleId;
    }
  }

  function DiscoveryOf(known: seq<string>, actions: seq<string>, ids: seq<string>): Discovery {
    Discovery(actions, ids, forall id | id in ids :: id !in known, Classify(actions))
  }

  function Discover(rules: seq<Rule>, known: seq<string>, actions: seq<string>): Option<Discovery> {
    var matched := AllMatches(rules, PermissionsOf(actions));
    if matched == [] then None else Some(DiscoveryOf(known, actions, RuleIds(matched)))
  }

  function Listed(d: Option<Discovery>): seq<Discovery> {
    match d case None => [] case Some(found) => [found]
  }

  function DiscoverAll(rules: seq<Rule>, known: seq<string>, combos: seq<seq<string>>): seq<Discovery> {
    if combos == [] then [] else Listed(Discover(rules, known, combos[0])) + DiscoverAll(rules, known, combos[1..])
  }

  /** Every combination that triggers a rule is discovered, and no other. */
  lemma {:induction false} DiscoversAll(rules: seq<Rule>, known: seq<string>, combos: seq<seq<string>>)
    ensures forall d :: d in DiscoverAll(rules, known, combos) <==>
              exists c :: c in combos && Discover(rules, known, c) == Some(d)
  {
    if combos != [] {
      DiscoversAll(rules, known, combos[1..]);
      assert combos == [combos[0]] + combos[1..];
    }
  }

  /** Discoveries come in the order of the combinations. */
  lemma {:induction false} DiscoveriesInOrder(rules: seq<Rule>, known: seq<string>, combos: seq<seq<string>>,
                                              later: seq<seq<string>>)
    ensures DiscoverAll(rules, known, combos + later)
         == DiscoverAll(rules, known, combos) + DiscoverAll(rules, known, later)
  {
    if combos == [] {
      assert combos + later == later;
    } else {
      assert (combos + later)[1..] == combos[1..] + later;
      DiscoveriesInOrder(rules, known, combos[1..], later);
      Regroup(Listed(Discover(rules, known, combos[0])), DiscoverAll(rules, known, combos[1..]),
              DiscoverAll(rules, known, later));
    }
  }

  lemma DiscoverStep(rules: seq<Rule>, known: seq<string>, combos: seq<seq<string>>, i: nat, found: seq<Discovery>)
    requires i < |combos|
    ensures found + DiscoverAll(rules, known, combos[i..])
         == found + Listed(Discover(rules, known, combos[i])) + DiscoverAll(rules, known, combos[i + 1..])
  {
    Rest(combos, i);
    Regroup(found, Listed(Discover(rules, known, combos[i])), DiscoverAll(rules, known, combos[i + 1..]));
  }

  function FuzzFamily(rules: seq<Rule>, config: Config, family: seq<string>): seq<Discovery> {
    DiscoverAll(rules, config.knownRuleIds, Rows(family, [], 0, 2))
    + if config.maxComboSize >= 3 then DiscoverAll(rules, config.knownRuleIds, Rows(family, [], 0, 3)) else []
  }

  function FuzzAll(rules: seq<Rule>, config: Config, families: seq<seq<string>>): seq<Discovery> {
    if families == [] then [] else FuzzFamily(rules, config, families[0]) + FuzzAll(rules, config, families[1..])
  }

  // ----- what is reported, told without the functions that compute it -----

  ghost predicate Begins(action: string, start: string) {
    |start| <= |action| && action[..|start|] == start
  }

  ghost predicate Holds(action: string, part: string) {
    exists before: string, after: string :: action == before + part + after
  }

  lemma ContainsHolds(action: string, part: string)
    requires Contains(action, part)
    ensures Holds(action, part)
  {
    var i: nat :| i + |part| <= |action| && part <= action[i..];
    assert action == action[..i] + part + action[i + |part|..];
  }

  lemma HoldsContains(before: string, part: string, after: string)
    ensures Contains(before + part + after, part)
  {
    var i := |before|;
    assert (before + part + after)[i..] == part + after;
    assert i + |part| <= |before + part + after| && part <= (before + part + after)[i..];
  }

  lemma HoldsIff(action: string, part: string)
    ensures Contains(action, part) <==> Holds(action, part)
  {
    if Contains(action, part) {
      ContainsHolds(action, part);
    }
    if Holds(action, part) {
      var before: string, after: string :| action == before + part + after;
      HoldsContains(before, part, after);
    }
  }

  ghost predicate IsAdmin(actions: seq<string>) { "*" in actions || "iam:*" in actions }

  ghost predicate IsDangerous(action: string) {
    || Begins(action, "iam:Create") || Begins(action, "iam:Attach") || Begins(action, "iam:Put")
    || Holds(action, "PassRole")
  }

  lemma ClassifyIff(actions: seq<string>)
    ensures Classify(actions) == Critical <==> IsAdmin(actions)
    ensures Classify(actions) == High <==> !IsAdmin(actions) && exists a :: a in actions && IsDangerous(a)
    ensures Classify(actions) == Medium <==> !IsAdmin(actions) && forall a :: a in actions ==> !IsDangerous(a)
  {
    forall a: string ensures IsDangerous(a) <==>
      ("iam:Create" <= a || "iam:Attach" <= a || "iam:Put" <= a || Contains(a, "PassRole"))
    {
      HoldsIff(a, "PassRole");
    }
  }

  /** The combination triggers a rule, and this is its record. */
  ghost predicate IsDiscovery(d: Discovery, rules: seq<Rule>, known: seq<string>, actions: seq<string>) {
    exists perms: seq<Permission> ::
      && |perms| == |actions| && (forall i :: 0 <= i < |actions| ==> perms[i] == Permission(actions[i], "*"))
      && RecordsMatches(d, AllMatches(rules, perms), known, actions)
  }

  ghost predicate RecordsMatches(d: Discovery, matches: seq<MatchedRule>, known: seq<string>, actions: seq<string>) {
    && matches != [] && d.actions == actions && |d.matchedRules| == |matches|
    && (forall i :: 0 <= i < |matches| ==> d.matchedRules[i] == matches[i].ruleId)
    && (d.isNovel <==> forall i :: 0 <= i < |matches| ==> matches[i].ruleId !in known)
    && (d.severity == Critical <==> IsAdmin(actions))
    && (d.severity == High <==> !IsAdmin(actions) && exists a :: a in actions && IsDangerous(a))
    && (d.severity == Medium <==> !IsAdmin(actions) && forall a :: a in actions ==> !IsDangerous(a))
  }

  lemma DiscoverIff(rules: seq<Rule>, known: seq<string>, actions: seq<string>, d: Discovery)
    ensures Discover(rules, known, actions) == Some(d) <==> IsDiscovery(d, rules, known, actions)
  {
    var perms := PermissionsOf(actions);
    var matches := AllMatches(rules, perms);
    ClassifyIff(actions);
    if matches != [] {
      RecordIff(matches, known, actions, d);
    }
    forall other: seq<Permission> |
      |other| == |actions| && forall i :: 0 <= i < |actions| ==> other[i] == Permission(actions[i], "*")
      ensures other == perms
    {}
  }

  lemma RecordIff(matches: seq<MatchedRule>, known: seq<string>, actions: seq<string>, d: Discovery)
    requires matches != []
    ensures d == DiscoveryOf(known, actions, RuleIds(matches)) <==> RecordsMatches(d, matches, known, actions)
  {
    ClassifyIff(actions);
    var ids := RuleIds(matches);
    assert forall i :: 0 <= i < |matches| ==> ids[i] == matches[i].ruleId && ids[i] in ids;
    assert (forall id | id in ids :: id !in known) <==>
           forall i :: 0 <= i < |matches| ==> matches[i].ruleId !in known;
    if RecordsMatches(d, matches, known, actions) {
      assert d.matchedRules == ids;
    }
  }

  ghost predicate IsSelection(c: seq<nat>, family: seq<string>, config: Config) {
    (|c| == 2 || (|c| == 3 && config.maxComboSize >= 3)) && IsCombo(c, |family|, 0, |c|)
  }

  lemma RowsAreSelections(family: seq<string>, k: nat, row: seq<string>)
    ensures row in Rows(family, [], 0, k) <==> exists c :: IsCombo(c, |family|, 0, k) && row == Pick(family, c)
  {
    var combos, rows := Combos(|family|, 0, k), Rows(family, [], 0, k);
    CombosComplete(|family|, 0, k);
    RowsAreCombos(family, [], 0, k);
    if row in rows {
      var x :| 0 <= x < |rows| && rows[x] == row;
      assert combos[x] in combos && [] + Pick(family, combos[x]) == Pick(family, combos[x]);
    }
    forall c | IsCombo(c, |family|, 0, k) ensures Pick(family, c) in rows {
      EnumeratesPick(family, c);
    }
  }

  lemma FamilyReportsIff(rules: seq<Rule>, config: Config, family: seq<string>, d: Discovery)
    ensures d in FuzzFamily(rules, config, family) <==>
            exists c :: IsSelection(c, family, config) && IsDiscovery(d, rules, config.knownRuleIds, Pick(family, c))
  {
    DiscoversAll(rules, config.knownRuleIds, Rows(family, [], 0, 2));
    DiscoversAll(rules, config.knownRuleIds, Rows(family, [], 0, 3));
    forall actions ensures Discover(rules, config.knownRuleIds, actions) == Some(d) <==>
                           IsDiscovery(d, rules, config.knownRuleIds, actions)
    {
      DiscoverIff(rules, config.knownRuleIds, actions, d);
    }
    forall row
      ensures row in Rows(family, [], 0, 2) <==> exists c :: IsCombo(c, |family|, 0, 2) && row == Pick(family, c)
      ensures row in Rows(family, [], 0, 3) <==> exists c :: IsCombo(c, |family|, 0, 3) && row == Pick(family, c)
    {
      RowsAreSelections(family, 2, row);
      RowsAreSelections(family, 3, row);
    }
  }

  /** The fuzzer reports exactly the pairs of each family, and with triples enabled the triples,
      that trigger a rule. */
  lemma {:induction false} ReportsIff(rules: seq<Rule>, config: Config, families: seq<seq<string>>, d: Discovery)
    ensures d in FuzzAll(rules, config, families) <==>
            exists f, c :: f in families && IsSelection(c, f, config)
                           && IsDiscovery(d, rules, config.knownRuleIds, Pick(f, c))
  {
    if families != [] {
      FamilyReportsIff(rules, config, families[0], d);
      ReportsIff(rules, config, families[1..], d);
      assert FuzzAll(rules, config, families) ==
        FuzzFamily(rules, config, families[0]) + FuzzAll(rules, config, families[1..]);
      forall f ensures f in families <==> f == families[0] || f in families[1..] {
        InCons(f, families);
      }
    }
  }

  lemma InCons(f: seq<string>, families: seq<seq<string>>)
    requires families != []
    ensures f in families <==> f == families[0] || f in families[1..]
  {
    assert families == [families[0]] + families[1..];
  }

  /** Families are reported in their order. */
  lemma {:induction false} FamiliesInOrder(rules: seq<Rule>, config: Config, families: seq<seq<string>>,
                                           later: seq<seq<string>>)
    ensures FuzzAll(rules, config, families + later) == FuzzAll(rules, config, families) + FuzzAll(rules, config, later)
  {
    if families == [] {
      assert families + later == later;
    } else {
      assert (families + later)[1..] == families[1..] + later;
      FamiliesInOrder(rules, config, families[1..], later);
      Regroup(FuzzFamily(rules, config, families[0]), FuzzAll(rules, config, families[1..]),
              FuzzAll(rules, config, later));
    }
  }

  /** Within a family the pairs come before the triples. */
  lemma PairsPrecedeTriples(rules: seq<Rule>, config: Config, family: seq<string>, x: nat, y: nat)
    requires x < y < |FuzzFamily(rules, config, family)|
    ensures var found := FuzzFamily(rules, config, family);
            |found[x].actions| == 2 || (|found[x].actions| == 3 && |found[y].actions| == 3)
  {
    SizesOf(rules, config, family, 2);
    SizesOf(rules, config, family, 3);
    var pairs := DiscoverAll(rules, config.knownRuleIds, Rows(family, [], 0, 2));
    var triples := DiscoverAll(rules, config.knownRuleIds, Rows(family, [], 0, 3));
    var more := if config.maxComboSize >= 3 then triples else [];
    assert FuzzFamily(rules, config, family) == pairs + more;
    InTwoParts(pairs, more, x, y);
  }

  lemma InTwoParts(pairs: seq<Discovery>, triples: seq<Discovery>, x: nat, y: nat)
    requires x < y < |pairs + triples|
    ensures (pairs + triples)[x] in pairs || ((pairs + triples)[x] in triples && (pairs + triples)[y] in triples)
  {
    if x < |pairs| {
      assert (pairs + triples)[x] == pairs[x];
    } else {
      assert (pairs + triples)[x] == triples[x - |pairs|] && (pairs + triples)[y] == triples[y - |pairs|];
    }
  }

  lemma SizesOf(rules: seq<Rule>, config: Config, family: seq<string>, k: nat)
    ensures forall d :: d in DiscoverAll(rules, config.knownRuleIds, Rows(family, [], 0, k)) ==> |d.actions| == k
  {
    DiscoversAll(rules, config.knownRuleIds, Rows(family, [], 0, k));
    forall row | row in Rows(family, [], 0, k) ensures |row| == k {
      RowsAreSelections(family, k, row);
    }
  }

  lemma FuzzStep(rules: seq<Rule>, config: Config, families: seq<seq<string>>, i: nat, found: seq<Discovery>)
    requires i < |families|
    ensures found + FuzzAll(rules, config, families[i..])
         == found + FuzzFamily(rules, config, families[i]) + FuzzAll(rules, config, families[i + 1..])
  {
    Rest(families, i);
    Regroup(found, FuzzFamily(rules, config, families[i]), FuzzAll(rules, config, families[i + 1..]));
  }

  method Probe(rules: seq<Rule>, config: Config, combos: seq<seq<string>>) returns (found: seq<Discovery>)
    ensures found == DiscoverAll(rules, config.knownRuleIds, combos)
  {
    found := [];
    for i := 0 to |combos|
      invariant found + DiscoverAll(rules, config.knownRuleIds, combos[i..])
             == DiscoverAll(rules, config.knownRuleIds, combos)
    {
      DiscoverStep(rules, config.knownRuleIds, combos, i, found);
      var matched := MatchAllRules(rules, PermissionsOf(combos[i]));
      if matched != [] {
        found := found + [DiscoveryOf(config.knownRuleIds, combos[i], RuleIds(matched))];
      } else {
        assert found + [] == found;
      }
    }
    assert found + [] == found;
  }

  method ProbeFamily(rules: seq<Rule>, config: Config, family: seq<string>) returns (found: seq<Discovery>)
    ensures found == FuzzFamily(rules, config, family)
  {
    var pairs := GeneratePairs(family);
    found := Probe(rules, config, pairs);
    var more: seq<Discovery> := [];
    if config.maxComboSize >= 3 {
      var triples := GenerateTriples(family);
      more := Probe(rules, config, triples);
    }
    found := found + more;
  }

  method RunFuzzer(rules: seq<Rule>, config: Config) returns (discoveries: seq<Discovery>)
    ensures discoveries == FuzzAll(rules, config, config.serviceFamilies)
  {
    discoveries := [];
    var families := config.serviceFamilies;
    for i := 0 to |families|
      invariant discoveries + FuzzAll(rules, config, families[i..]) == FuzzAll(rules, config, families)
    {
      FuzzStep(rules, config, families, i, discoveries);
      var found := ProbeFamily(rules, config, families[i]);
      discoveries := discoveries + found;
    }
    assert discoveries + [] == discoveries;
  }

  /** Adding actions to a combination keeps every rule it triggers. */
  lemma LargerCombosReportMore(rules: seq<Rule>, known: seq<string>, actions: seq<string>, more: seq<string>)
    requires forall a :: a in actions ==> a in more
    requires Discover(rules, known, actions).Some?
    ensures Discover(rules, known, more).Some?
    ensures forall id :: id in Discover(rules, known, actions).value.matchedRules ==>
              id in Discover(rules, known, more).value.matchedRules
  {
    var perms, wider := PermissionsOf(actions), PermissionsOf(more);
    forall p | p in perms ensures p in wider {
      var i :| 0 <= i < |perms| && perms[i] == p;
      assert actions[i] in more;
      var j :| 0 <= j < |more| && more[j] == actions[i];
      assert wider[j] == p;
    }
    SupersetGrantsAtLeast(perms, wider);
    MatchingIsMonotone(rules, perms, wider);
    RuleIdsReported(AllMatches(rules, perms));
    RuleIdsReported(AllMatches(rules, wider));
    assert RuleIdReported(AllMatches(rules, perms), AllMatches(rules, perms)[0].ruleId);
  }

  /** With triples enabled, whatever a pair of the family triggers is reported by each triple
      of the family that extends the pair. */
  lemma TriplesExtendPairs(rules: seq<Rule>, config: Config, family: seq<string>, pair: seq<nat>, triple: seq<nat>,
                           found: Discovery)
    requires config.maxComboSize >= 3
    requires IsCombo(pair, |family|, 0, 2) && IsCombo(triple, |family|, 0, 3)
    requires forall i :: i in pair ==> i in triple
    requires Discover(rules, config.knownRuleIds, Pick(family, pair)) == Some(found)
    ensures found in FuzzFamily(rules, config, family)
    ensures exists wider :: wider in FuzzFamily(rules, config, family) && wider.actions == Pick(family, triple)
              && forall id :: id in found.matchedRules ==> id in wider.matchedRules
  {
    EnumeratesPick(family, pair);
    EnumeratesPick(family, triple);
    forall a | a in Pick(family, pair) ensures a in Pick(family, triple) {
      var i :| 0 <= i < 2 && Pick(family, pair)[i] == a;
      assert pair[i] in triple;
      var j :| 0 <= j < 3 && triple[j] == pair[i];
      assert Pick(family, triple)[j] == a;
    }
    LargerCombosReportMore(rules, config.knownRuleIds, Pick(family, pair), Pick(family, triple));
    DiscoversAll(rules, config.knownRuleIds, Rows(family, [], 0, 2));
    DiscoversAll(rules, config.knownRuleIds, Rows(family, [], 0, 3));
    var wider := Discover(rules, config.knownRuleIds, Pick(family, triple)).value;
    assert wider in DiscoverAll(rules, config.knownRuleIds, Rows(family, [], 0, 3));
  }

  /** Every combination of indices is generated. */
  lemma EnumeratesPick(family: seq<string>, c: seq<nat>)
    requires IsCombo(c, |family|, 0, |c|)
    ensures Pick(family, c) in Rows(family, [], 0, |c|)
  {
    CombosComplete(|family|, 0, |c|);
    RowsAreCombos(family, [], 0, |c|);
    var combos, rows := Combos(|family|, 0, |c|), Rows(family, [], 0, |c|);
    var x :| 0 <= x < |combos| && combos[x] == c;
    assert rows[x] == [] + Pick(family, c) == Pick(family, c);
  }

  /** n(n-1)/2 pairs and n(n-1)(n-2)/6 triples. */
  lemma GeneratedCounts(family: seq<string>)
    ensures var n := |family|;
            2 * |Rows(family, [], 0, 2)| == n * (n - 1) && 6 * |Rows(family, [], 0, 3)| == n * (n - 1) * (n - 2)
  {
    RowsAreCombos(family, [], 0, 2);
    RowsAreCombos(family, [], 0, 3);
    CombosCount(|family|, 0, 2);
    CombosCount(|family|, 0, 3);
    BinomialValues(|family|);
  }
}
