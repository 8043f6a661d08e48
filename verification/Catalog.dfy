/** Snapshots of the action catalog, and the difference of two of them. */
module Catalog {
  import opened Sums

  type Services = map<string, seq<string>>

  datatype Snapshot = Snapshot(timestamp: string, services: Services, totalActionCount: int)

  datatype Diff = Diff(
    fromTimestamp: string,
    toTimestamp: string,
    newServices: set<string>,
    removedServices: set<string>,
    newActions: map<string, set<string>>,
    removedActions: map<string, set<string>>,
    totalNewActions: int,
    totalRemovedActions: int)

  function Distinct(actions: seq<string>): set<string> {
    set a | a in actions
  }

  ghost function Lengths(services: Services): string -> int {
    (s: string) => if s in services then |services[s]| else 0
  }

  ghost function Sizes(m: map<string, set<string>>): string -> int {
    (s: string) => if s in m then |m[s]| else 0
  }

  method SumLengths(services: Services, names: set<string>) returns (total: int)
    requires names <= services.Keys
    ensures total == Sum(names, Lengths(services))
  {
    total := 0;
    var rest := names;
    while rest != {}
      invariant rest <= names
      invariant total + Sum(rest, Lengths(services)) == Sum(names, Lengths(services))
      decreases rest
    {
      var s :| s in rest;
      SumRemove(rest, s, Lengths(services));
      total := total + |services[s]|;
      rest := rest - {s};
    }
  }

  method SumSizes(m: map<string, set<string>>) returns (total: int)
    ensures total == Sum(m.Keys, Sizes(m))
  {
    total := 0;
    var rest := m.Keys;
    while rest != {}
      invariant rest <= m.Keys
      invariant total + Sum(rest, Sizes(m)) == Sum(m.Keys, Sizes(m))
      decreases rest
    {
      var s :| s in rest;
      SumRemove(rest, s, Sizes(m));
      total := total + |m[s]|;
      rest := rest - {s};
    }
  }

  method CreateSnapshot(services: Services, timestamp: string) returns (snapshot: Snapshot)
    ensures snapshot.timestamp == timestamp && snapshot.services == services
    ensures Counted(snapshot)
  {
    var total := SumLengths(services, services.Keys);
    snapshot := Snapshot(timestamp, services, total);
  }

  ghost predicate Counted(snapshot: Snapshot) {
    snapshot.totalActionCount == Sum(snapshot.services.Keys, Lengths(snapshot.services))
  }

  /** The services of `names` with a non-empty difference, and that difference. */
  ghost predicate Differences(m: map<string, set<string>>, names: set<string>, more: Services, less: Services)
    requires names <= more.Keys && names <= less.Keys
  {
    && (forall s :: s in m <==> s in names && Distinct(more[s]) - Distinct(less[s]) != {})
    && (forall s :: s in m ==> m[s] == Distinct(more[s]) - Distinct(less[s]))
  }

  /** `d` is the difference, both as contents and as counts. */
  ghost predicate IsDiff(d: Diff, from: Snapshot, to: Snapshot) {
    && d.fromTimestamp == from.timestamp && d.toTimestamp == to.timestamp
    && d.newServices == to.services.Keys - from.services.Keys
    && d.removedServices == from.services.Keys - to.services.Keys
    && Differences(d.newActions, from.services.Keys * to.services.Keys, to.services, from.services)
    && Differences(d.removedActions, from.services.Keys * to.services.Keys, from.services, to.services)
    && d.totalNewActions == Sum(d.newActions.Keys, Sizes(d.newActions)) + Sum(d.newServices, Lengths(to.services))
    && d.totalRemovedActions ==
         Sum(d.removedActions.Keys, Sizes(d.removedActions)) + Sum(d.removedServices, Lengths(from.services))
  }

  method DiffCatalogs(from: Snapshot, to: Snapshot) returns (d: Diff)
    ensures IsDiff(d, from, to)
  {
    var newServices := to.services.Keys - from.services.Keys;
    var removedServices := from.services.Keys - to.services.Keys;
    var common := from.services.Keys * to.services.Keys;
    var newActions: map<string, set<string>> := map[];
    var removedActions: map<string, set<string>> := map[];
    var rest := common;
    while rest != {}
      invariant rest <= common
      invariant Differences(newActions, common - rest, to.services, from.services)
      invariant Differences(removedActions, common - rest, from.services, to.services)
      decreases rest
    {
      var s :| s in rest;
      var before, after := Distinct(from.services[s]), Distinct(to.services[s]);
      if after - before != {} {
        newActions := newActions[s := after - before];
      }
      if before - after != {} {
        removedActions := removedActions[s := before - after];
      }
      rest := rest - {s};
    }
    assert common - {} == common;
    var inNew := SumSizes(newActions);
    var ofNew := SumLengths(to.services, newServices);
    var inOld := SumSizes(removedActions);
    var ofOld := SumLengths(from.services, removedServices);
    d := Diff(from.timestamp, to.timestamp, newServices, removedServices, newActions, removedActions,
              inNew + ofNew, inOld + ofOld);
  }

  // ----- conservation -----

  /** How many entries of a service repeat another. */
  ghost function Repeats(services: Services): string -> int {
    (s: string) => if s in services then |services[s]| - |Distinct(services[s])| else 0
  }

  ghost predicate NoDuplicates(actions: seq<string>) {
    forall i, j :: 0 <= i < j < |actions| ==> actions[i] != actions[j]
  }

  lemma {:induction false} DistinctSize(actions: seq<string>)
    requires NoDuplicates(actions)
    ensures |Distinct(actions)| == |actions|
  {
    if actions != [] {
      var rest := actions[1..];
      assert forall j :: 0 <= j < |rest| ==> rest[j] == actions[j + 1];
      DistinctSize(rest);
      assert Distinct(actions) == Distinct(rest) + {actions[0]};
    }
  }

  lemma DifferenceSizes(a: set<string>, b: set<string>)
    ensures |a| + |b - a| == |b| + |a - b|
  {
    assert a == (a * b) + (a - b) && b == (a * b) + (b - a);
  }

  lemma SkipEmpty(names: set<string>, m: map<string, set<string>>)
    requires m.Keys <= names
    ensures Sum(names, Sizes(m)) == Sum(m.Keys, Sizes(m))
  {
    assert names == m.Keys + (names - m.Keys);
    SumUnion(m.Keys, names - m.Keys, Sizes(m));
    SumSame(names - m.Keys, Sizes(m), (s: string) => 0);
    SumZero(names - m.Keys);
  }

  lemma {:induction false} SumZero(names: set<string>)
    ensures Sum(names, (s: string) => 0) == 0
  {
    if names != {} {
      var s :| s in names;
      SumRemove(names, s, (s: string) => 0);
      SumZero(names - {s});
    }
  }

  /** The balance over the services both catalogs have. */
  lemma {:induction false} CommonBalance(names: set<string>, from: Services, to: Services,
                                         added: map<string, set<string>>, removed: map<string, set<string>>)
    requires names <= from.Keys && names <= to.Keys
    requires forall s :: s in names ==>
               && Sizes(added)(s) == |Distinct(to[s]) - Distinct(from[s])|
               && Sizes(removed)(s) == |Distinct(from[s]) - Distinct(to[s])|
    ensures Sum(names, Lengths(to)) + Sum(names, Sizes(removed)) + Sum(names, Repeats(from))
         == Sum(names, Lengths(from)) + Sum(names, Sizes(added)) + Sum(names, Repeats(to))
  {
    if names != {} {
      var s :| s in names;
      SumRemove(names, s, Lengths(to));
      SumRemove(names, s, Lengths(from));
      SumRemove(names, s, Sizes(removed));
      SumRemove(names, s, Sizes(added));
      SumRemove(names, s, Repeats(from));
      SumRemove(names, s, Repeats(to));
      DifferenceSizes(Distinct(to[s]), Distinct(from[s]));
      CommonBalance(names - {s}, from, to, added, removed);
    }
  }

  lemma DifferenceCounts(m: map<string, set<string>>, names: set<string>, more: Services, less: Services)
    requires names <= more.Keys && names <= less.Keys && Differences(m, names, more, less)
    ensures forall s :: s in names ==> Sizes(m)(s) == |Distinct(more[s]) - Distinct(less[s])|
    ensures Sum(names, Sizes(m)) == Sum(m.Keys, Sizes(m))
  {
    SkipEmpty(names, m);
  }

  /** A snapshot's total less the entries the diff attributes to it. */
  lemma SideTotal(snapshot: Snapshot, common: set<string>, own: set<string>, m: map<string, set<string>>,
                  other: Services, attributed: int)
    requires Counted(snapshot) && snapshot.services.Keys == common + own && common !! own && common <= other.Keys
    requires Differences(m, common, snapshot.services, other)
    requires attributed == Sum(m.Keys, Sizes(m)) + Sum(own, Lengths(snapshot.services))
    ensures snapshot.totalActionCount - attributed == Sum(common, Lengths(snapshot.services)) - Sum(common, Sizes(m))
  {
    SumUnion(common, own, Lengths(snapshot.services));
    DifferenceCounts(m, common, snapshot.services, other);
  }

  lemma SideTotals(d: Diff, from: Snapshot, to: Snapshot)
    requires IsDiff(d, from, to) && Counted(from) && Counted(to)
    ensures var common := from.services.Keys * to.services.Keys;
      && to.totalActionCount - d.totalNewActions ==
           Sum(common, Lengths(to.services)) - Sum(common, Sizes(d.newActions))
      && from.totalActionCount - d.totalRemovedActions ==
           Sum(common, Lengths(from.services)) - Sum(common, Sizes(d.removedActions))
  {
    var common := from.services.Keys * to.services.Keys;
    SideTotal(to, common, d.newServices, d.newActions, from.services, d.totalNewActions);
    SideTotal(from, common, d.removedServices, d.removedActions, to.services, d.totalRemovedActions);
  }

  /** What is new less what is removed is the change of the totals, exactly when the services
      both catalogs have repeat as many entries before as after. */
  lemma TotalsConservedIff(d: Diff, from: Snapshot, to: Snapshot)
    requires IsDiff(d, from, to) && Counted(from) && Counted(to)
    ensures var common := from.services.Keys * to.services.Keys;
            to.totalActionCount + d.totalRemovedActions == from.totalActionCount + d.totalNewActions
            <==> Sum(common, Repeats(from.services)) == Sum(common, Repeats(to.services))
  {
    var common := from.services.Keys * to.services.Keys;
    SideTotals(d, from, to);
    DifferenceBalance(from.services, to.services, d.newActions, d.removedActions);
  }

  lemma DifferenceBalance(from: Services, to: Services, added: map<string, set<string>>,
                          removed: map<string, set<string>>)
    requires Differences(added, from.Keys * to.Keys, to, from)
    requires Differences(removed, from.Keys * to.Keys, from, to)
    ensures var common := from.Keys * to.Keys;
            Sum(common, Lengths(to)) + Sum(common, Sizes(removed)) + Sum(common, Repeats(from))
            == Sum(common, Lengths(from)) + Sum(common, Sizes(added)) + Sum(common, Repeats(to))
  {
    DifferenceCounts(added, from.Keys * to.Keys, to, from);
    DifferenceCounts(removed, from.Keys * to.Keys, from, to);
    CommonBalance(from.Keys * to.Keys, from, to, added, removed);
  }

  ghost predicate DuplicateFree(services: Services) {
    forall s :: s in services ==> NoDuplicates(services[s])
  }

  lemma {:induction false} NoRepeats(names: set<string>, services: Services)
    requires DuplicateFree(services)
    ensures Sum(names, Repeats(services)) == 0
  {
    if names != {} {
      var s :| s in names;
      SumRemove(names, s, Repeats(services));
      if s in services { DistinctSize(services[s]); }
      NoRepeats(names - {s}, services);
    }
  }

  /** Duplicate-free catalogs always balance. */
  lemma TotalsConserved(d: Diff, from: Snapshot, to: Snapshot)
    requires IsDiff(d, from, to) && Counted(from) && Counted(to)
    requires DuplicateFree(from.services) && DuplicateFree(to.services)
    ensures to.totalActionCount + d.totalRemovedActions == from.totalActionCount + d.totalNewActions
  {
    TotalsConservedIff(d, from, to);
    NoRepeats(from.services.Keys * to.services.Keys, from.services);
    NoRepeats(from.services.Keys * to.services.Keys, to.services);
  }
}
