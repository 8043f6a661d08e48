/** Escalation attempts in CloudTrail events: the timestamp window, denied-then-success
    pairs, and rapid IAM changes. */
module CloudTrail {
  import opened Wrappers
  import opened Seqs

  datatype Event = Event(
    id: string,
    time: string,
    name: string,
    source: string,
    principal: string,
    errorCode: Option<string>)

  // ----- the timestamp number -----

  const I64_MAX := 0x7FFF_FFFF_FFFF_FFFF

  predicate IsDigit(c: char) { '0' <= c <= '9' }

  function Digits(s: string): (ds: string)
    ensures forall i :: 0 <= i < |ds| ==> IsDigit(ds[i])
  {
    if s == "" then "" else (if IsDigit(s[0]) then [s[0]] else "") + Digits(s[1..])
  }

  function DigitsValue(ds: string): nat
    requires forall i :: 0 <= i < |ds| ==> IsDigit(ds[i])
  {
    if ds == "" then 0
    else
      assert IsDigit(ds[|ds| - 1]);
      10 * DigitsValue(ds[..|ds| - 1]) + (ds[|ds| - 1] as int - '0' as int)
  }

  /** All digits of the text read as one number; 0 when there is none or it overflows. */
  function TimestampNumber(s: string): (n: nat)
    ensures n <= I64_MAX
  {
    var value := DigitsValue(Digits(s));
    if value > I64_MAX then 0 else value
  }

  function Pow10(n: nat): (p: nat)
    ensures p >= 1
  {
    if n == 0 then 1 else 10 * Pow10(n - 1)
  }

  lemma {:induction false} LeadingDigit(ds: string)
    requires ds != "" && ds[0] != '0' && forall i :: 0 <= i < |ds| ==> IsDigit(ds[i])
    ensures DigitsValue(ds) >= Pow10(|ds| - 1)
  {
    if |ds| > 1 {
      LeadingDigit(ds[..|ds| - 1]);
    } else {
      assert ds[..0] == "" && IsDigit(ds[0]);
    }
  }

  lemma {:induction false} Pow10Grows(m: nat, n: nat)
    requires m <= n
    ensures Pow10(m) <= Pow10(n)
  {
    if m < n {
      Pow10Grows(m, n - 1);
    }
  }

  lemma Pow10Of19()
    ensures Pow10(19) == 10_000_000_000_000_000_000
  {
    assert Pow10(5) == 100_000;
    assert Pow10(10) == 100_000 * Pow10(5);
    assert Pow10(15) == 100_000 * Pow10(10);
    assert Pow10(19) == 10_000 * Pow10(15);
  }

  /** Texts without digits, and those with twenty or more, count as zero: they are within every
      window of each other. */
  lemma UnreadableIsZero(s: string)
    requires Digits(s) == "" || (|Digits(s)| >= 20 && Digits(s)[0] != '0')
    ensures TimestampNumber(s) == 0
  {
    if Digits(s) != "" {
      LeadingDigit(Digits(s));
      Pow10Grows(19, |Digits(s)| - 1);
      Pow10Of19();
    }
  }

  predicate Within(a: string, b: string, window: nat) {
    TimestampNumber(b) - TimestampNumber(a) <= window && TimestampNumber(a) - TimestampNumber(b) <= window
  }

  // ----- denied, then allowed -----

  const SUCCESS_WINDOW := 3600

  predicate Resolves(events: seq<Event>, i: nat, j: nat)
    requires i < |events| && j < |events|
  {
    && events[j].errorCode.None? && events[j].name == events[i].name
    && Within(events[i].time, events[j].time, SUCCESS_WINDOW)
  }

  predicate Denied(e: Event) { e.errorCode == Some("AccessDenied") }

  /** The first event from j on that resolves event i. */
  function FirstSuccess(events: seq<Event>, i: nat, j: nat): (r: Option<nat>)
    requires i < |events| && j <= |events|
    ensures r.Some? ==> j <= r.value < |events| && Resolves(events, i, r.value)
    ensures forall k :: j <= k < |events| && Resolves(events, i, k) ==> r.Some? && r.value <= k
    decreases |events| - j
  {
    if j == |events| then None else if Resolves(events, i, j) then Some(j) else FirstSuccess(events, i, j + 1)
  }

  function PairsFrom(events: seq<Event>, i: nat): seq<(nat, nat)>
    requires i <= |events|
    decreases |events| - i
  {
    if i == |events| then []
    else
      var rest := PairsFrom(events, i + 1);
      if !Denied(events[i]) then rest
      else match FirstSuccess(events, i, i + 1) case None => rest case Some(j) => [(i, j)] + rest
  }

  /** Index pairs (denied, success). */
  method FindDeniedThenSuccess(events: seq<Event>) returns (pairs: seq<(nat, nat)>)
    ensures pairs == PairsFrom(events, 0)
  {
    pairs := [];
    for i := 0 to |events|
      invariant pairs + PairsFrom(events, i) == PairsFrom(events, 0)
    {
      if Denied(events[i]) {
        var j := i + 1;
        while j < |events| && !Resolves(events, i, j)
          invariant i < j <= |events|
          invariant FirstSuccess(events, i, i + 1) == FirstSuccess(events, i, j)
        {
          j := j + 1;
        }
        if j < |events| {
          pairs := pairs + [(i, j)];
        }
      }
    }
  }

  /** Each denied event is paired with its first later success, once, in order; one without a
      later success is not reported. */
  lemma DeniedPairsIff(events: seq<Event>, from: nat)
    requires from <= |events|
    ensures forall i, j :: (i, j) in PairsFrom(events, from) <==>
              && from <= i < |events| && Denied(events[i]) && FirstSuccess(events, i, i + 1) == Some(j)
    ensures forall x, y :: 0 <= x < y < |PairsFrom(events, from)| ==>
              PairsFrom(events, from)[x].0 < PairsFrom(events, from)[y].0
  {
    PairsHeld(events, from);
    PairsInOrder(events, from);
  }

  lemma {:induction false} PairsHeld(events: seq<Event>, from: nat)
    requires from <= |events|
    ensures forall i, j :: (i, j) in PairsFrom(events, from) <==>
              && from <= i < |events| && Denied(events[i]) && FirstSuccess(events, i, i + 1) == Some(j)
    decreases |events| - from
  {
    if from < |events| {
      var rest := PairsFrom(events, from + 1);
      PairsHeld(events, from + 1);
      if Denied(events[from]) && FirstSuccess(events, from, from + 1).Some? {
        var first := (from, FirstSuccess(events, from, from + 1).value);
        assert forall p :: p in [first] + rest <==> p == first || p in rest;
      }
    }
  }

  lemma {:induction false} PairsInOrder(events: seq<Event>, from: nat)
    requires from <= |events|
    ensures forall x, y :: 0 <= x < y < |PairsFrom(events, from)| ==>
              PairsFrom(events, from)[x].0 < PairsFrom(events, from)[y].0
    decreases |events| - from
  {
    if from < |events| {
      var rest := PairsFrom(events, from + 1);
      PairsInOrder(events, from + 1);
      PairsHeld(events, from + 1);
      forall y | 0 <= y < |rest| ensures from < rest[y].0 {
        assert (rest[y].0, rest[y].1) in rest;
      }
      if Denied(events[from]) && FirstSuccess(events, from, from + 1).Some? {
        PrependPair((from, FirstSuccess(events, from, from + 1).value), rest);
      }
    }
  }

  /** Event k is a later success of the same call, within the window by the timestamp number. */
  ghost predicate Succeeds(events: seq<Event>, i: nat, k: nat) {
    && i < k < |events| && events[k].errorCode == None && events[k].name == events[i].name
    && Apart(TimestampNumber(events[i].time), TimestampNumber(events[k].time), 3600)
  }

  /** A pair is reported exactly when the first event was refused access and the second is its
      first later success. */
  lemma DeniedThenSuccessIff(events: seq<Event>, i: nat, j: nat)
    ensures (i, j) in PairsFrom(events, 0) <==>
      && i < |events| && events[i].errorCode == Some("AccessDenied") && Succeeds(events, i, j)
      && forall k :: i < k < j ==> !Succeeds(events, i, k)
  {
    DeniedPairsIff(events, 0);
    if i < |events| {
      FirstSuccessIff(events, i, j);
    }
  }

  lemma FirstSuccessIff(events: seq<Event>, i: nat, j: nat)
    requires i < |events|
    ensures FirstSuccess(events, i, i + 1) == Some(j) <==>
            Succeeds(events, i, j) && forall k :: i < k < j ==> !Succeeds(events, i, k)
  {
    forall k | i < k < |events| ensures Resolves(events, i, k) <==> Succeeds(events, i, k) {}
    var first := FirstSuccess(events, i, i + 1);
    if first.Some? {
      assert Succeeds(events, i, first.value);
    }
  }

  lemma PrependPair(first: (nat, nat), rest: seq<(nat, nat)>)
    requires forall y :: 0 <= y < |rest| ==> first.0 < rest[y].0
    requires forall x, y :: 0 <= x < y < |rest| ==> rest[x].0 < rest[y].0
    ensures forall x, y :: 0 <= x < y < |[first] + rest| ==> ([first] + rest)[x].0 < ([first] + rest)[y].0
  {}

  // ----- rapid IAM changes -----

  const IAM_WRITES := {
    "CreatePolicy", "CreatePolicyVersion", "DeletePolicy", "DeletePolicyVersion", "PutUserPolicy", "PutGroupPolicy",
    "PutRolePolicy", "AttachUserPolicy", "AttachGroupPolicy", "AttachRolePolicy", "DetachUserPolicy",
    "DetachGroupPolicy", "DetachRolePolicy", "CreateRole", "UpdateAssumeRolePolicy", "CreateUser", "AddUserToGroup",
    "UpdateUserPolicy", "CreateAccessKey"}

  predicate IsIamWrite(e: Event) {
    e.source == "iam.amazonaws.com" && e.name in IAM_WRITES
  }

  function Writes(events: seq<Event>): seq<Event> {
    if events == [] then []
    else Kept(events[0]) + Writes(events[1..])
  }

  function Kept(e: Event): seq<Event> {
    if IsIamWrite(e) then [e] else []
  }

  /** Kept are, in their order, the calls to the IAM service that are among its write actions. */
  lemma WritesGrow(events: seq<Event>, e: Event)
    ensures Writes([]) == []
    ensures e.source == "iam.amazonaws.com" && e.name in IAM_WRITES ==> Writes(events + [e]) == Writes(events) + [e]
    ensures !(e.source == "iam.amazonaws.com" && e.name in IAM_WRITES) ==> Writes(events + [e]) == Writes(events)
  {
    WritesConcat(events, [e]);
    assert [e][1..] == [];
    assert Writes(events) + [] == Writes(events);
  }

  lemma {:induction false} WritesConcat(xs: seq<Event>, ys: seq<Event>)
    ensures Writes(xs + ys) == Writes(xs) + Writes(ys)
  {
    if xs == [] {
      assert xs + ys == ys;
    } else {
      assert (xs + ys)[1..] == xs[1..] + ys;
      WritesConcat(xs[1..], ys);
      Regroup(Kept(xs[0]), Writes(xs[1..]), Writes(ys));
    }
  }

  const RAPID_WINDOW := 300

  function Near(writes: seq<Event>, i: nat, j: nat): bool
    requires i < |writes| && j < |writes|
  {
    Within(writes[i].time, writes[j].time, RAPID_WINDOW)
  }

  /** `count` writes from `start` on lie within the window of the first, and the next does not. */
  ghost predicate IsStretch(writes: seq<Event>, start: nat, count: nat) {
    && count > 0 && start + count <= |writes|
    && (forall j :: start < j < start + count ==> Near(writes, start, j))
    && (start + count < |writes| ==> !Near(writes, start, start + count))
  }

  method StretchFrom(writes: seq<Event>, start: nat) returns (count: nat)
    requires start < |writes|
    ensures IsStretch(writes, start, count)
  {
    count := 1;
    while start + count < |writes| && Near(writes, start, start + count)
      invariant count > 0 && start + count <= |writes|
      invariant forall j :: start < j < start + count ==> Near(writes, start, j)
    {
      count := count + 1;
    }
  }

  datatype Rapid = Rapid(start: nat, count: nat)

  /** The first stretch of more than three writes. */
  ghost predicate FirstRapid(writes: seq<Event>, found: Option<Rapid>) {
    && (found.Some? ==> found.value.count > 3 && IsStretch(writes, found.value.start, found.value.count))
    && (forall start: nat, count: nat | IsStretch(writes, start, count) && count > 3 ::
          found.Some? && found.value.start <= start)
  }

  /** At most one rapid change is reported. */
  method FindRapidChanges(writes: seq<Event>) returns (found: Option<Rapid>)
    ensures FirstRapid(writes, found)
  {
    for i := 0 to |writes|
      invariant forall start: nat, count: nat :: IsStretch(writes, start, count) && count > 3 ==> start >= i
    {
      var count := StretchFrom(writes, i);
      StretchUnique(writes, i, count);
      if count > 3 {
        return Some(Rapid(i, count));
      }
    }
    return None;
  }

  lemma StretchUnique(writes: seq<Event>, start: nat, count: nat)
    requires IsStretch(writes, start, count)
    ensures forall other: nat :: IsStretch(writes, start, other) ==> other == count
  {
    forall other: nat | IsStretch(writes, start, other) ensures other == count {}
  }

  ghost predicate InOrder(writes: seq<Event>) {
    forall i, j :: 0 <= i < j < |writes| ==> TimestampNumber(writes[i].time) <= TimestampNumber(writes[j].time)
  }

  /** The stretch from `start`, which reaches past `last`. */
  lemma StretchExists(writes: seq<Event>, start: nat, last: nat) returns (count: nat)
    requires start <= last < |writes| && forall j :: start < j <= last ==> Near(writes, start, j)
    ensures IsStretch(writes, start, count) && start + count > last
  {
    count := last - start + 1;
    while start + count < |writes| && Near(writes, start, start + count)
      invariant start + count <= |writes| && start + count > last
      invariant forall j :: start < j < start + count ==> Near(writes, start, j)
    {
      count := count + 1;
    }
  }

  predicate FourNear(writes: seq<Event>, i: nat) {
    i + 3 < |writes| && Near(writes, i, i + 3)
  }

  /** With the writes in timestamp order, a rapid change starts at the first write whose third
      successor is within the window, and holds exactly the writes within the window. */
  lemma RapidChangeIff(writes: seq<Event>, found: Option<Rapid>)
    requires InOrder(writes) && FirstRapid(writes, found)
    ensures found.Some? <==> exists i: nat :: FourNear(writes, i)
    ensures found.Some? ==>
      && FourNear(writes, found.value.start)
      && (forall i: nat :: FourNear(writes, i) ==> found.value.start <= i)
      && found.value.start + found.value.count <= |writes|
      && (forall j :: found.value.start < j < |writes| ==>
            (j < found.value.start + found.value.count <==> Near(writes, found.value.start, j)))
  {
    if found.Some? {
      var start, count := found.value.start, found.value.count;
      assert FourNear(writes, start);
      forall j | start + count <= j < |writes| ensures !Near(writes, start, j) {
        if start + count < j {
          assert TimestampNumber(writes[start + count].time) <= TimestampNumber(writes[j].time);
        }
        assert TimestampNumber(writes[start].time) <= TimestampNumber(writes[start + count].time);
      }
    }
    forall i: nat | FourNear(writes, i) ensures found.Some? && found.value.start <= i {
      forall j | i < j <= i + 3 ensures Near(writes, i, j) {
        assert TimestampNumber(writes[i].time) <= TimestampNumber(writes[j].time);
        if j < i + 3 {
          assert TimestampNumber(writes[j].time) <= TimestampNumber(writes[i + 3].time);
        }
      }
      var count := StretchExists(writes, i, i + 3);
    }
  }

  // ----- grouping -----

  method GroupByPrincipal(events: seq<Event>) returns (groups: map<string, seq<Event>>)
    ensures forall p :: p in groups <==> OfPrincipal(events, p) != []
    ensures forall p :: p in groups ==> groups[p] == OfPrincipal(events, p)
  {
    groups := map[];
    for n := 0 to |events|
      invariant forall p :: p in groups <==> OfPrincipal(events[..n], p) != []
      invariant forall p :: p in groups ==> groups[p] == OfPrincipal(events[..n], p)
    {
      var p := events[n].principal;
      assert events[..n + 1] == events[..n] + [events[n]];
      forall q ensures OfPrincipal(events[..n + 1], q) ==
        OfPrincipal(events[..n], q) + if q == p then [events[n]] else []
      {
        OfPrincipalConcat(events[..n], [events[n]], q);
      }
      groups := groups[p := (if p in groups then groups[p] else []) + [events[n]]];
    }
    assert events[..|events|] == events;
  }

  /** Each principal's rapid change, if it has one. */
  method DetectRapidChanges(events: seq<Event>) returns (attempts: map<string, Rapid>)
    ensures forall p :: FirstRapid(Writes(OfPrincipal(events, p)), if p in attempts then Some(attempts[p]) else None)
  {
    var groups := GroupByPrincipal(events);
    attempts := map[];
    var rest := groups.Keys;
    while rest != {}
      invariant rest <= groups.Keys && attempts.Keys <= groups.Keys - rest
      invariant forall p :: p in groups && p !in rest ==>
                  FirstRapid(Writes(groups[p]), if p in attempts then Some(attempts[p]) else None)
      decreases rest
    {
      var p :| p in rest;
      rest := rest - {p};
      var found := FindRapidChanges(Writes(groups[p]));
      if found.Some? {
        attempts := attempts[p := found.value];
      }
    }
    forall p | p !in groups ensures FirstRapid(Writes(OfPrincipal(events, p)), None) {
      assert OfPrincipal(events, p) == [] && Writes([]) == [];
    }
  }

  /** The principal's events, in their order. */
  function OfPrincipal(events: seq<Event>, principal: string): seq<Event> {
    if events == [] then []
    else Own(events[0], principal) + OfPrincipal(events[1..], principal)
  }

  function Own(e: Event, principal: string): seq<Event> {
    if e.principal == principal then [e] else []
  }

  lemma {:induction false} OfPrincipalConcat(xs: seq<Event>, ys: seq<Event>, principal: string)
    ensures OfPrincipal(xs + ys, principal) == OfPrincipal(xs, principal) + OfPrincipal(ys, principal)
  {
    if xs == [] {
      assert xs + ys == ys;
    } else {
      assert (xs + ys)[1..] == xs[1..] + ys;
      OfPrincipalConcat(xs[1..], ys, principal);
      Regroup(Own(xs[0], principal), OfPrincipal(xs[1..], principal), OfPrincipal(ys, principal));
    }
  }

  // ----- the number against the time it stands for -----

  /** A time of day on some date. */
  datatype Stamp = Stamp(year: nat, month: nat, day: nat, hour: nat, minute: nat, second: nat)

  predicate ValidStamp(t: Stamp) {
    t.year < 10000 && t.month < 100 && t.day < 100 && t.hour < 24 && t.minute < 60 && t.second < 60
  }

  function Digit(n: nat): (c: char)
    requires n < 10
    ensures IsDigit(c) && c as int - '0' as int == n
  {
    (n + '0' as int) as char
  }

  function Two(n: nat): string
    requires n < 100
  {
    [Digit(n / 10), Digit(n % 10)]
  }

  function Field(text: string, mark: char, n: nat): string
    requires n < 100
  {
    text + [mark] + Two(n)
  }

  /** The form CloudTrail writes, such as 2026-05-23T14:30:45Z. */
  function Format(t: Stamp): string
    requires ValidStamp(t)
  {
    var date := Field(Field(Two(t.year / 100) + Two(t.year % 100), '-', t.month), '-', t.day);
    Field(Field(Field(date, 'T', t.hour), ':', t.minute), ':', t.second) + ['Z']
  }

  lemma {:induction false} DigitsConcat(a: string, b: string)
    ensures Digits(a + b) == Digits(a) + Digits(b)
  {
    if a == "" {
      assert a + b == b;
    } else {
      assert (a + b)[1..] == a[1..] + b;
      DigitsConcat(a[1..], b);
    }
  }

  function NumberIn(s: string): nat { DigitsValue(Digits(s)) }

  lemma PushDigit(ds: string, n: nat)
    requires n < 10 && forall i :: 0 <= i < |ds| ==> IsDigit(ds[i])
    ensures DigitsValue(ds + [Digit(n)]) == 10 * DigitsValue(ds) + n
  {
    assert (ds + [Digit(n)])[..|ds|] == ds;
  }

  lemma AppendTwo(text: string, n: nat)
    requires n < 100
    ensures NumberIn(text + Two(n)) == 100 * NumberIn(text) + n
  {
    var tens, ones := Digit(n / 10), Digit(n % 10);
    DigitsConcat(text, Two(n));
    assert Two(n)[1..] == [ones] && Digits([ones]) == [ones] && Digits(Two(n)) == [tens] + [ones];
    PushDigit(Digits(text), n / 10);
    PushDigit(Digits(text) + [tens], n % 10);
    assert Digits(text) + [tens] + [ones] == Digits(text + Two(n));
  }

  lemma AppendMark(text: string, mark: char)
    requires !IsDigit(mark)
    ensures NumberIn(text + [mark]) == NumberIn(text)
  {
    DigitsConcat(text, [mark]);
    assert Digits([mark]) == "" && Digits(text) + "" == Digits(text);
  }

  lemma AppendField(text: string, mark: char, n: nat)
    requires !IsDigit(mark) && n < 100
    ensures NumberIn(Field(text, mark, n)) == 100 * NumberIn(text) + n
  {
    AppendMark(text, mark);
    AppendTwo(text + [mark], n);
  }

  ghost function StampNumber(t: Stamp): nat {
    ((((t.year * 100 + t.month) * 100 + t.day) * 100 + t.hour) * 100 + t.minute) * 100 + t.second
  }

  /** The timestamp number of a formatted time strings its fields together. */
  lemma NumberOfFormat(t: Stamp)
    requires ValidStamp(t)
    ensures TimestampNumber(Format(t)) == StampNumber(t)
  {
    YearNumber(t.year);
    var year := Two(t.year / 100) + Two(t.year % 100);
    var month := Field(year, '-', t.month);
    var day := Field(month, '-', t.day);
    var hour := Field(day, 'T', t.hour);
    var minute := Field(hour, ':', t.minute);
    var second := Field(minute, ':', t.second);
    AppendField(year, '-', t.month);
    AppendField(month, '-', t.day);
    AppendField(day, 'T', t.hour);
    AppendField(hour, ':', t.minute);
    AppendField(minute, ':', t.second);
    AppendMark(second, 'Z');
    assert Format(t) == second + ['Z'];
  }

  lemma YearNumber(year: nat)
    requires year < 10000
    ensures NumberIn(Two(year / 100) + Two(year % 100)) == year
  {
    AppendTwo("", year / 100);
    assert "" + Two(year / 100) == Two(year / 100);
    AppendTwo(Two(year / 100), year % 100);
  }

  ghost function SecondOfDay(t: Stamp): nat {
    (t.hour * 60 + t.minute) * 60 + t.second
  }

  ghost predicate SameHour(a: Stamp, b: Stamp) {
    a.year == b.year && a.month == b.month && a.day == b.day && a.hour == b.hour
  }

  /** The digits above the minutes, and those from the minutes on. */
  ghost function HourNumber(t: Stamp): nat { ((t.year * 100 + t.month) * 100 + t.day) * 100 + t.hour }

  ghost function MinuteNumber(t: Stamp): nat { t.minute * 100 + t.second }

  lemma HourNumbers(a: Stamp, b: Stamp)
    requires ValidStamp(a) && ValidStamp(b)
    ensures HourNumber(a) == HourNumber(b) <==> SameHour(a, b)
  {
    SameFields(a.year, a.month, b.year, b.month);
    SameFields(a.year * 100 + a.month, a.day, b.year * 100 + b.month, b.day);
    SameFields((a.year * 100 + a.month) * 100 + a.day, a.hour, (b.year * 100 + b.month) * 100 + b.day, b.hour);
  }

  lemma SameFields(x: nat, m: nat, y: nat, n: nat)
    requires m < 100 && n < 100
    ensures x * 100 + m == y * 100 + n <==> x == y && m == n
  {}

  ghost predicate Apart(m: int, n: int, most: int) { m - n <= most && n - m <= most }

  lemma SplitNumbers(h: nat, m: nat, k: nat, n: nat, window: nat)
    requires m < 6000 && n < 6000 && (h != k ==> window <= 4040 && m <= 5959 && n <= 5959)
    ensures Apart(h * 10000 + m, k * 10000 + n, window) <==> h == k && Apart(m, n, window)
  {
    if h < k {
      assert k * 10000 + n >= h * 10000 + 10000;
    } else if k < h {
      assert h * 10000 + m >= k * 10000 + 10000;
    }
  }

  lemma NumberSplits(t: Stamp)
    requires ValidStamp(t)
    ensures TimestampNumber(Format(t)) == HourNumber(t) * 10000 + MinuteNumber(t) && MinuteNumber(t) <= 5959
  {
    NumberOfFormat(t);
  }

  lemma WithinSplits(a: Stamp, b: Stamp, window: nat)
    requires ValidStamp(a) && ValidStamp(b) && window <= 4040
    ensures Within(Format(a), Format(b), window) <==> SameHour(a, b) && Apart(MinuteNumber(a), MinuteNumber(b), window)
  {
    NumberSplits(a);
    NumberSplits(b);
    HourNumbers(a, b);
    SplitNumbers(HourNumber(a), MinuteNumber(a), HourNumber(b), MinuteNumber(b), window);
  }

  /** The window accepts the two times exactly when they have the same date and hour, and
      minute-second numbers at most that far apart. */
  ghost predicate ReadsMinutes(a: Stamp, b: Stamp, window: nat)
    requires ValidStamp(a) && ValidStamp(b)
  {
    Within(Format(a), Format(b), window) <==> SameHour(a, b) && Apart(MinuteNumber(a), MinuteNumber(b), window)
  }

  lemma WideWindowCrossesHours(a: Stamp, b: Stamp, window: nat)
    requires ValidStamp(a) && ValidStamp(b) && HourNumber(b) == HourNumber(a) + 1
    requires MinuteNumber(a) == 5959 && MinuteNumber(b) == 0 && window > 4040
    ensures !ReadsMinutes(a, b, window)
  {
    NumberSplits(a);
    NumberSplits(b);
    HourNumbers(a, b);
  }

  lemma HourApart() returns (a: Stamp, b: Stamp)
    ensures ValidStamp(a) && ValidStamp(b) && HourNumber(b) == HourNumber(a) + 1
    ensures MinuteNumber(a) == 5959 && MinuteNumber(b) == 0
  {
    a, b := Stamp(2026, 5, 23, 14, 59, 59), Stamp(2026, 5, 23, 15, 0, 0);
  }

  /** For any two times, whatever their days, exactly when the window is at most 4040. */
  lemma WindowReadsMinutesIff(window: nat)
    ensures (forall a, b | ValidStamp(a) && ValidStamp(b) :: ReadsMinutes(a, b, window)) <==> window <= 4040
  {
    if window <= 4040 {
      forall a, b | ValidStamp(a) && ValidStamp(b) ensures ReadsMinutes(a, b, window) {
        WithinSplits(a, b, window);
      }
    } else {
      var a, b := HourApart();
      WideWindowCrossesHours(a, b, window);
    }
  }

  /** A window of 100 per minute accepts two times exactly when they are in the same hour of
      the same day and at most that many minutes apart. */
  lemma WindowInMinutes(a: Stamp, b: Stamp, minutes: nat)
    requires ValidStamp(a) && ValidStamp(b) && minutes <= 40
    ensures Within(Format(a), Format(b), 100 * minutes) <==>
            SameHour(a, b) && Apart(SecondOfDay(a), SecondOfDay(b), 60 * minutes)
  {
    WithinSplits(a, b, 100 * minutes);
    if SameHour(a, b) {
      MinutesApart(b.minute - a.minute, b.second - a.second, minutes);
      MinutesApart(a.minute - b.minute, a.second - b.second, minutes);
    }
  }

  lemma MinutesApart(minutes: int, seconds: int, most: nat)
    requires -60 < seconds < 60
    ensures 100 * minutes + seconds <= 100 * most <==> 60 * minutes + seconds <= 60 * most
  {
    if minutes < most {
      assert minutes + 1 <= most;
    } else if most < minutes {
      assert most + 1 <= minutes;
    }
  }

  /** The window meant as five minutes is three minutes within one hour. */
  lemma RapidWindowIsThreeMinutes(a: Stamp, b: Stamp)
    requires ValidStamp(a) && ValidStamp(b)
    ensures Within(Format(a), Format(b), RAPID_WINDOW) <==>
            SameHour(a, b) && Apart(SecondOfDay(a), SecondOfDay(b), 180)
  {
    WindowInMinutes(a, b, 3);
  }

  /** The window meant as one hour is thirty-six minutes within one hour. */
  lemma SuccessWindowIsThirtySixMinutes(a: Stamp, b: Stamp)
    requires ValidStamp(a) && ValidStamp(b)
    ensures Within(Format(a), Format(b), SUCCESS_WINDOW) <==>
            SameHour(a, b) && Apart(SecondOfDay(a), SecondOfDay(b), 2160)
  {
    WindowInMinutes(a, b, 36);
  }

  /** Two seconds apart across midnight, and in neither window. */
  lemma WindowsMissMidnight()
    ensures var a, b := Stamp(2026, 5, 23, 23, 59, 59), Stamp(2026, 5, 24, 0, 0, 1);
            !Within(Format(a), Format(b), RAPID_WINDOW) && !Within(Format(a), Format(b), SUCCESS_WINDOW)
  {
    var a, b := Stamp(2026, 5, 23, 23, 59, 59), Stamp(2026, 5, 24, 0, 0, 1);
    RapidWindowIsThreeMinutes(a, b);
    SuccessWindowIsThirtySixMinutes(a, b);
  }
}
