/** ARN parsing and its canonical form. */
module Arns {
  import opened ActionMatcher

  datatype Arn = Arn(partition: string, service: string, region: string, account: string, resource: string)

  datatype ArnError = EmptyString | PartCount | NotArn | UnknownPartition | EmptyService | BadAccount | EmptyResource

  datatype ParseResult = Ok(arn: Arn) | Err(error: ArnError)

  /** At most n parts; the last keeps its colons. */
  function SplitN(s: string, n: nat): (parts: seq<string>)
    requires n > 0
    ensures 1 <= |parts| <= n
    decreases n
  {
    if n == 1 || ':' !in s then [s]
    else
      var i := FirstColon(s);
      [s[..i]] + SplitN(s[i + 1..], n - 1)
  }

  function FirstColon(s: string): (i: nat)
    requires ':' in s
    ensures i < |s| && s[i] == ':' && ':' !in s[..i]
  {
    if s[0] == ':' then 0 else 1 + FirstColon(s[1..])
  }

  predicate ValidAccount(account: string) {
    account == "" || account == "aws" || (|account| == 12 && forall c | c in account :: '0' <= c <= '9')
  }

  function Parse(s: string): ParseResult {
    if s == "" then Err(EmptyString) else FromParts(SplitN(s, 6))
  }

  function FromParts(parts: seq<string>): ParseResult {
    if |parts| != 6 then Err(PartCount)
    else if parts[0] != "arn" then Err(NotArn)
    else
      var partition := Lower(parts[1]);
      if partition != "aws" && partition != "aws-cn" && partition != "aws-us-gov" then Err(UnknownPartition)
      else
        var service := Lower(parts[2]);
        if service == "" then Err(EmptyService)
        else
          var region := Lower(parts[3]);
          if !ValidAccount(parts[4]) then Err(BadAccount)
          else if parts[5] == "" then Err(EmptyResource)
          else Ok(Arn(partition, service, region, parts[4], parts[5]))
  }

  function Join(parts: seq<string>): string {
    if parts == [] then "" else if |parts| == 1 then parts[0] else parts[0] + ":" + Join(parts[1..])
  }

  function Canonical(a: Arn): string {
    Join(["arn", a.partition, a.service, a.region, a.account, a.resource])
  }

  predicate IsValidNodeId(s: string) {
    match Parse(s)
    case Ok(arn) => '*' !in arn.resource && '?' !in arn.resource
    case Err(_) => false
  }

  // ----- splitting undoes joining, and back -----

  ghost predicate OnlyLastHasColons(parts: seq<string>) {
    forall i :: 0 <= i < |parts| - 1 ==> ':' !in parts[i]
  }

  lemma {:induction false} JoinOfSplit(s: string, n: nat)
    requires n > 0
    ensures Join(SplitN(s, n)) == s
    decreases n
  {
    if n > 1 && ':' in s {
      var i := FirstColon(s);
      JoinOfSplit(s[i + 1..], n - 1);
      JoinCons(s[..i], SplitN(s[i + 1..], n - 1));
      CutAt(s, i);
    }
  }

  lemma JoinCons(head: string, rest: seq<string>)
    requires rest != []
    ensures Join([head] + rest) == head + ":" + Join(rest)
  {
    assert ([head] + rest)[1..] == rest;
  }

  lemma CutAt(s: string, i: nat)
    requires i < |s| && s[i] == ':'
    ensures s[..i] + ":" + s[i + 1..] == s
  {}

  lemma {:induction false} SplitLeavesNoColons(s: string, n: nat)
    requires n > 0
    ensures OnlyLastHasColons(SplitN(s, n))
    decreases n
  {
    if n > 1 && ':' in s {
      SplitLeavesNoColons(s[FirstColon(s) + 1..], n - 1);
    }
  }

  lemma {:induction false} FirstColonOfConcat(head: string, tail: string)
    requires ':' !in head
    ensures ':' in head + ":" + tail && FirstColon(head + ":" + tail) == |head|
  {
    assert (head + ":" + tail)[|head|] == ':';
    if head != "" {
      FirstColonOfConcat(head[1..], tail);
      assert (head + ":" + tail)[1..] == head[1..] + ":" + tail;
    }
  }

  lemma SplitOnce(head: string, tail: string, n: nat)
    requires ':' !in head && n > 1
    ensures SplitN(head + ":" + tail, n) == [head] + SplitN(tail, n - 1)
  {
    FirstColonOfConcat(head, tail);
    var s := head + ":" + tail;
    assert s[..|head|] == head && s[|head| + 1..] == tail;
  }

  lemma {:induction false} SplitOfJoin(parts: seq<string>)
    requires parts != [] && OnlyLastHasColons(parts)
    ensures SplitN(Join(parts), |parts|) == parts
  {
    if |parts| > 1 {
      SplitOfJoin(parts[1..]);
      SplitOnce(parts[0], Join(parts[1..]), |parts|);
    }
  }

  // ----- what parses, and to what -----

  ghost predicate NoUpperCase(s: string) {
    forall c :: c in s ==> !('A' <= c <= 'Z')
  }

  ghost predicate IsAccount(s: string) {
    s == "" || s == "aws" || (|s| == 12 && forall i :: 0 <= i < 12 ==> '0' <= s[i] <= '9')
  }

  ghost predicate WellFormed(a: Arn) {
    && a.partition in {"aws", "aws-cn", "aws-us-gov"}
    && a.service != "" && ':' !in a.service && NoUpperCase(a.service)
    && ':' !in a.region && NoUpperCase(a.region)
    && IsAccount(a.account)
    && a.resource != ""
  }

  /** `s` spells the ARN: six parts, the first five without colons, up to the case of the
      partition, service and region. */
  ghost predicate Spells(s: string, a: Arn, partition: string, service: string, region: string) {
    && s == Join(["arn", partition, service, region, a.account, a.resource])
    && ':' !in service && ':' !in region
    && Recased(partition, a.partition) && Recased(service, a.service) && Recased(region, a.region)
  }

  lemma LowerIff(s: string, folded: string)
    ensures Lower(s) == folded <==> Recased(s, folded) && NoUpperCase(folded)
  {
    RecasedIff(s, folded);
    assert Lower(Lower(s)) == Lower(s);
    forall c ensures !('A' <= LowerChar(c) <= 'Z') {}
    if NoUpperCase(folded) {
      forall i | 0 <= i < |folded| ensures LowerChar(folded[i]) == folded[i] {
        assert folded[i] in folded;
      }
      assert Lower(folded) == folded;
    }
  }

  lemma AccountIff(s: string)
    ensures ValidAccount(s) <==> IsAccount(s)
  {
    if |s| == 12 && IsAccount(s) {
      forall c | c in s ensures '0' <= c <= '9' {
        var i: nat :| i < |s| && s[i] == c;
      }
    }
    if ValidAccount(s) && |s| == 12 {
      forall i | 0 <= i < 12 ensures '0' <= s[i] <= '9' {
        assert s[i] in s;
      }
    }
  }

  lemma JoinSix(a: string, b: string, c: string, d: string, e: string, f: string)
    ensures Join([a, b, c, d, e, f]) == a + ":" + b + ":" + c + ":" + d + ":" + e + ":" + f
  {
    JoinCons(a, [b, c, d, e, f]);
    JoinCons(b, [c, d, e, f]);
    JoinCons(c, [d, e, f]);
    JoinCons(d, [e, f]);
    JoinCons(e, [f]);
    assert [a] + [b, c, d, e, f] == [a, b, c, d, e, f] && [b] + [c, d, e, f] == [b, c, d, e, f];
    assert [c] + [d, e, f] == [c, d, e, f] && [d] + [e, f] == [d, e, f] && [e] + [f] == [e, f];
    assert Join([f]) == f;
  }

  /** The six parts in order, separated by colons. */
  lemma CanonicalText(a: Arn)
    ensures Canonical(a) == "arn:" + a.partition + ":" + a.service + ":" + a.region + ":" + a.account + ":" + a.resource
  {
    JoinSix("arn", a.partition, a.service, a.region, a.account, a.resource);
  }

  lemma AccountColonFree(account: string)
    requires ValidAccount(account)
    ensures ':' !in account
  {}

  lemma RecasedColon(s: string, t: string)
    requires Recased(s, t)
    ensures ':' in s <==> ':' in t
    ensures s == "" <==> t == ""
  {
    if ':' in s {
      var i: nat :| i < |s| && s[i] == ':';
      assert t[i] == ':';
    }
    if ':' in t {
      var i: nat :| i < |t| && t[i] == ':';
      assert s[i] == ':';
    }
  }

  /** What the checks on six parts come to. */
  lemma PartsParseIff(parts: seq<string>, a: Arn)
    requires |parts| == 6 && ':' !in parts[2] && ':' !in parts[3]
    ensures FromParts(parts) == Ok(a) <==>
      && WellFormed(a) && parts[0] == "arn" && parts[4] == a.account && parts[5] == a.resource
      && Recased(parts[1], a.partition) && Recased(parts[2], a.service) && Recased(parts[3], a.region)
  {
    FieldsIff(parts, a);
    AccountIff(parts[4]);
    if Recased(parts[2], a.service) { RecasedColon(parts[2], a.service); }
    if Recased(parts[3], a.region) { RecasedColon(parts[3], a.region); }
  }

  lemma FieldsIff(parts: seq<string>, a: Arn)
    requires |parts| == 6
    ensures Lower(parts[1]) == a.partition && a.partition in {"aws", "aws-cn", "aws-us-gov"} <==>
            Recased(parts[1], a.partition) && a.partition in {"aws", "aws-cn", "aws-us-gov"}
    ensures Lower(parts[2]) == a.service <==> Recased(parts[2], a.service) && NoUpperCase(a.service)
    ensures Lower(parts[3]) == a.region <==> Recased(parts[3], a.region) && NoUpperCase(a.region)
  {
    LowerIff(parts[1], a.partition);
    LowerIff(parts[2], a.service);
    LowerIff(parts[3], a.region);
  }

  lemma PartsSpell(parts: seq<string>, a: Arn)
    requires OnlyLastHasColons(parts) && FromParts(parts) == Ok(a)
    ensures WellFormed(a) && exists partition, service, region :: Spells(Join(parts), a, partition, service, region)
  {
    assert |parts| == 6;
    PartsParseIff(parts, a);
    assert parts == ["arn", parts[1], parts[2], parts[3], a.account, a.resource];
    assert Spells(Join(parts), a, parts[1], parts[2], parts[3]);
  }

  lemma ParsedIsSpelled(s: string, a: Arn)
    ensures Parse(s) == Ok(a) ==>
              WellFormed(a) && exists partition, service, region :: Spells(s, a, partition, service, region)
  {
    JoinOfSplit(s, 6);
    SplitLeavesNoColons(s, 6);
    if FromParts(SplitN(s, 6)) == Ok(a) {
      PartsSpell(SplitN(s, 6), a);
    }
  }

  /** Six parts of which only the last has colons are parsed part by part. */
  lemma ParseOfSix(parts: seq<string>)
    requires |parts| == 6 && OnlyLastHasColons(parts)
    ensures Parse(Join(parts)) == FromParts(parts)
  {
    SplitOfJoin(parts);
    assert Join(parts) == parts[0] + ":" + Join(parts[1..]);
  }

  lemma SpelledIsParsed(s: string, a: Arn, partition: string, service: string, region: string)
    requires WellFormed(a) && Spells(s, a, partition, service, region)
    ensures Parse(s) == Ok(a)
  {
    var parts := ["arn", partition, service, region, a.account, a.resource];
    AccountIff(a.account);
    AccountColonFree(a.account);
    RecasedColon(partition, a.partition);
    ParseOfSix(parts);
    PartsParseIff(parts, a);
  }

  // ----- what is refused, and why -----

  function Colons(s: string): nat {
    if s == "" then 0 else (if s[0] == ':' then 1 else 0) + Colons(s[1..])
  }

  lemma {:induction false} ColonsAfterFirst(s: string)
    requires ':' in s
    ensures Colons(s) == 1 + Colons(s[FirstColon(s) + 1..])
  {
    if s[0] != ':' {
      ColonsAfterFirst(s[1..]);
      assert s[1..][FirstColon(s[1..]) + 1..] == s[FirstColon(s) + 1..];
    }
  }

  lemma {:induction false} NoColons(s: string)
    ensures Colons(s) == 0 <==> ':' !in s
  {
    if s != "" {
      NoColons(s[1..]);
      assert s == [s[0]] + s[1..];
    }
  }

  lemma {:induction false} SplitSize(s: string, n: nat)
    requires n > 0
    ensures |SplitN(s, n)| == if Colons(s) + 1 < n then Colons(s) + 1 else n
    decreases n
  {
    NoColons(s);
    if n > 1 && ':' in s {
      ColonsAfterFirst(s);
      SplitSize(s[FirstColon(s) + 1..], n - 1);
    }
  }

  lemma PartCountIff(parts: seq<string>)
    ensures FromParts(parts) != Err(EmptyString)
    ensures FromParts(parts) == Err(PartCount) <==> |parts| != 6
  {}

  /** The two errors that come before any part is looked at. */
  lemma TooFewPartsIff(s: string)
    ensures Parse(s) == Err(EmptyString) <==> s == ""
    ensures Parse(s) == Err(PartCount) <==> s != "" && Colons(s) < 5
  {
    var n := 6;
    SplitSize(s, n);
    PartCountIff(SplitN(s, n));
  }

  ghost predicate IsPartition(s: string) {
    Recased(s, "aws") || Recased(s, "aws-cn") || Recased(s, "aws-us-gov")
  }

  lemma PartitionIff(s: string)
    ensures Lower(s) == "aws" || Lower(s) == "aws-cn" || Lower(s) == "aws-us-gov" <==> IsPartition(s)
  {
    LowerIff(s, "aws");
    LowerIff(s, "aws-cn");
    LowerIff(s, "aws-us-gov");
  }

  lemma EmptyIff(s: string)
    ensures Lower(s) == "" <==> s == ""
  {
    assert |Lower(s)| == |s|;
  }

  /** The part at fault, the first from the left. */
  ghost predicate FirstFault(parts: seq<string>, r: ParseResult)
    requires |parts| == 6
  {
    && (r == Err(NotArn) <==> parts[0] != "arn")
    && (r == Err(UnknownPartition) <==> parts[0] == "arn" && !IsPartition(parts[1]))
    && (r == Err(EmptyService) <==> parts[0] == "arn" && IsPartition(parts[1]) && parts[2] == "")
    && (r == Err(BadAccount) <==>
          parts[0] == "arn" && IsPartition(parts[1]) && parts[2] != "" && !IsAccount(parts[4]))
    && (r == Err(EmptyResource) <==>
          parts[0] == "arn" && IsPartition(parts[1]) && parts[2] != "" && IsAccount(parts[4]) && parts[5] == "")
  }

  lemma PartsAtFault(parts: seq<string>)
    requires |parts| == 6
    ensures FirstFault(parts, FromParts(parts))
  {
    AccountIff(parts[4]);
    PartitionIff(parts[1]);
    EmptyIff(parts[2]);
  }

  lemma PartErrorsIff(parts: seq<string>)
    requires |parts| == 6 && OnlyLastHasColons(parts)
    ensures FirstFault(parts, Parse(Join(parts)))
  {
    ParseOfSix(parts);
    PartsAtFault(parts);
  }

  /** A node id spells a well-formed ARN whose resource has no wildcard. */
  lemma NodeIdIff(s: string)
    ensures IsValidNodeId(s) <==>
            exists a, partition, service, region ::
              WellFormed(a) && Spells(s, a, partition, service, region) && '*' !in a.resource && '?' !in a.resource
  {
    if Parse(s).Ok? {
      ParsedIsSpelled(s, Parse(s).arn);
    }
    forall a, partition, service, region | WellFormed(a) && Spells(s, a, partition, service, region)
      ensures Parse(s) == Ok(a)
    {
      SpelledIsParsed(s, a, partition, service, region);
    }
  }

  /** The parser accepts exactly the spellings of well-formed ARNs, with any colons the
      resource has. */
  lemma ParsesIff(s: string, a: Arn)
    ensures Parse(s) == Ok(a) <==>
            WellFormed(a) && exists partition, service, region :: Spells(s, a, partition, service, region)
  {
    if Parse(s) == Ok(a) {
      ParsedIsSpelled(s, a);
    }
    if WellFormed(a) && exists p, sv, rg :: Spells(s, a, p, sv, rg) {
      var p, sv, rg :| Spells(s, a, p, sv, rg);
      SpelledIsParsed(s, a, p, sv, rg);
    }
  }

  /** Parsing a canonical form gives the ARN back. */
  lemma ParseOfCanonical(a: Arn)
    requires WellFormed(a)
    ensures Parse(Canonical(a)) == Ok(a)
  {
    assert Spells(Canonical(a), a, a.partition, a.service, a.region);
    ParsesIff(Canonical(a), a);
  }

  /** For every string that parses, the canonical form parses to the same ARN and is its own
      canonical form. */
  lemma RoundTrip(s: string)
    ensures match Parse(s)
            case Err(_) => true
            case Ok(a) =>
              && Parse(Canonical(a)) == Ok(a) && Canonical(Parse(Canonical(a)).arn) == Canonical(a)
              && (IsValidNodeId(Canonical(a)) <==> IsValidNodeId(s))
  {
    if Parse(s).Ok? {
      ParsesIff(s, Parse(s).arn);
      ParseOfCanonical(Parse(s).arn);
    }
  }

  /** Distinct well-formed ARNs have distinct canonical forms. */
  lemma CanonicalInjective(a: Arn, b: Arn)
    requires WellFormed(a) && WellFormed(b) && Canonical(a) == Canonical(b)
    ensures a == b
  {
    ParseOfCanonical(a);
    ParseOfCanonical(b);
  }
}
