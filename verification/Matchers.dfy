/** Case-insensitive action matching. */
module ActionMatcher {
  import opened Glob

  function LowerChar(c: char): char {
    if 'A' <= c <= 'Z' then (c as int + 32) as char else c
  }

  function Lower(s: string): string {
    seq(|s|, i requires 0 <= i < |s| => LowerChar(s[i]))
  }

  predicate ActionMatches(pattern: string, action: string) {
    var p, a := Lower(pattern), Lower(action);
    if '*' !in p && '?' !in p then p == a else WildcardMatch(p, a)
  }

  lemma LowerKeepsWildcards(s: string)
    ensures '*' in Lower(s) <==> '*' in s
    ensures '?' in Lower(s) <==> '?' in s
  {
    forall i | 0 <= i < |s|
      ensures Lower(s)[i] == '*' <==> s[i] == '*'
      ensures Lower(s)[i] == '?' <==> s[i] == '?'
    {}
  }

  /** The fast path and the matcher together decide the glob language on folded text. */
  lemma ActionMatchesDecides(pattern: string, action: string)
    ensures ActionMatches(pattern, action) <==> InLanguage(Lower(pattern), Lower(action))
  {
    MatchDecidesLanguage(Lower(pattern), Lower(action));
    if !HasWildcard(Lower(pattern)) {
      LiteralLanguage(Lower(pattern), Lower(action));
    }
  }

  /** Folding case only adds matches. */
  lemma {:induction false} FoldingOnlyAdds(pattern: string, action: string)
    requires InLanguage(pattern, action)
    ensures InLanguage(Lower(pattern), Lower(action))
  {
    if pattern == "" {
      EmptyPattern(action);
      EmptyPattern("");
    } else {
      var piece, tail := Uncons(pattern, action);
      FoldingOnlyAdds(pattern[1..], tail);
      Cons(LowerChar(pattern[0]), Lower(pattern[1..]), Lower(piece), Lower(tail));
      assert Lower(pattern) == [LowerChar(pattern[0])] + Lower(pattern[1..]);
      assert Lower(action) == Lower(piece) + Lower(tail);
    }
  }

  // ----- what ignoring case means -----

  predicate SameLetter(c: char, d: char) {
    c == d || ('A' <= c <= 'Z' && d as int == c as int + 32) || ('A' <= d <= 'Z' && c as int == d as int + 32)
  }

  /** The same text but for the case of its ASCII letters. */
  predicate Recased(s: string, t: string) {
    |s| == |t| && forall i | 0 <= i < |s| :: SameLetter(s[i], t[i])
  }

  lemma RecasedIff(s: string, t: string)
    ensures Recased(s, t) <==> Lower(s) == Lower(t)
  {
    forall c, d ensures SameLetter(c, d) <==> LowerChar(c) == LowerChar(d) {}
    if Lower(s) == Lower(t) {
      forall i | 0 <= i < |s| ensures SameLetter(s[i], t[i]) {
        assert Lower(s)[i] == Lower(t)[i];
      }
    }
  }

  /** A text accepted by the folded pattern has a spelling that the pattern itself accepts. */
  lemma {:induction false} Respelled(pattern: string, text: string) returns (spelling: string)
    requires InLanguage(Lower(pattern), text)
    ensures InLanguage(pattern, spelling) && Lower(spelling) == Lower(text)
  {
    if pattern == "" {
      EmptyPattern(text);
      EmptyPattern("");
      spelling := "";
    } else {
      var piece, tail := Uncons(Lower(pattern), text);
      assert Lower(pattern)[1..] == Lower(pattern[1..]);
      var rest := Respelled(pattern[1..], tail);
      LowerKeepsWildcards([pattern[0]]);
      var first := if pattern[0] == '*' || pattern[0] == '?' then piece else [pattern[0]];
      assert Lower(first) == Lower(piece) && Fits(pattern[0], first);
      Cons(pattern[0], pattern[1..], first, rest);
      spelling := first + rest;
      assert pattern == [pattern[0]] + pattern[1..];
      assert Lower(spelling) == Lower(first) + Lower(rest) && Lower(text) == Lower(piece) + Lower(tail);
    }
  }

  /** An action matches exactly when the pattern's glob language holds some recasing of it. */
  lemma ActionMatchesIff(pattern: string, action: string)
    ensures ActionMatches(pattern, action) <==>
            exists spelling :: Recased(action, spelling) && InLanguage(pattern, spelling)
  {
    ActionMatchesDecides(pattern, action);
    if ActionMatches(pattern, action) {
      var spelling := Respelled(pattern, Lower(action));
      assert Lower(Lower(action)) == Lower(action);
      RecasedIff(action, spelling);
    }
    forall spelling | Recased(action, spelling) && InLanguage(pattern, spelling)
      ensures ActionMatches(pattern, action)
    {
      RecasedIff(action, spelling);
      FoldingOnlyAdds(pattern, spelling);
    }
  }

  /** A pattern without wildcards matches its recasings and nothing else. */
  lemma LiteralMatchesIff(pattern: string, action: string)
    requires !HasWildcard(pattern)
    ensures ActionMatches(pattern, action) <==> Recased(pattern, action)
  {
    RecasedIff(pattern, action);
    ActionMatchesDecides(pattern, action);
    LowerKeepsWildcards(pattern);
    LiteralLanguage(Lower(pattern), Lower(action));
  }

  /** Recasing the pattern or the action never changes the verdict. */
  lemma CaseIsIgnored(pattern: string, pattern': string, action: string, action': string)
    requires Recased(pattern, pattern') && Recased(action, action')
    ensures ActionMatches(pattern, action) <==> ActionMatches(pattern', action')
  {
    RecasedIff(pattern, pattern');
    RecasedIff(action, action');
    ActionMatchesDecides(pattern, action);
    ActionMatchesDecides(pattern', action');
  }

  /** An action pattern with no `?` that matches the text of another pattern matches every
      action that pattern stands for; so does any pattern matching a text with no `*`. */
  lemma ActionTextIncludes(outer: string, inner: string, action: string)
    requires ActionMatches(outer, inner) && ActionMatches(inner, action)
    requires '?' !in outer || '*' !in inner
    ensures ActionMatches(outer, action)
  {
    ActionMatchesDecides(outer, inner);
    ActionMatchesDecides(inner, action);
    ActionMatchesDecides(outer, action);
    LowerKeepsWildcards(outer);
    LowerKeepsWildcards(inner);
    MatchingTextIncludes(Lower(outer), Lower(inner), Lower(action));
  }

  lemma {:induction false} FoldedRewrites(s: string)
    requires Lower(s) == s
    ensures Lower(Rewrite(s, Widen)) == Rewrite(s, Widen) && Lower(Rewrite(s, Drop)) == Rewrite(s, Drop)
  {
    if s != "" {
      assert Lower(s[1..]) == s[1..];
      assert LowerChar(s[0]) == Lower(s)[0];
      FoldedRewrites(s[1..]);
    }
  }

  /** An action pattern that matches the text of another pattern includes it, for every such
      pattern, exactly when it has no `?`. */
  lemma SoundActionPatternIff(outer: string)
    ensures (forall inner, action :: ActionMatches(outer, inner) && ActionMatches(inner, action)
              ==> ActionMatches(outer, action)) <==> '?' !in outer
  {
    LowerKeepsWildcards(outer);
    if '?' in outer {
      var folded := Lower(outer);
      assert Lower(folded) == folded;
      var inner, action := Rewrite(folded, Widen), Rewrite(folded, Drop);
      FoldedRewrites(folded);
      WidenedWitness(folded);
      ActionMatchesDecides(outer, inner);
      ActionMatchesDecides(inner, action);
      ActionMatchesDecides(outer, action);
      if ActionMatches(outer, action) {
        LanguageMinLength(folded, action);
        assert false;
      }
    } else {
      forall inner, action | ActionMatches(outer, inner) && ActionMatches(inner, action)
        ensures ActionMatches(outer, action)
      {
        ActionTextIncludes(outer, inner, action);
      }
    }
  }

  /** A literal pattern is interchangeable with any action it matches. */
  lemma LiteralActionTransparent(outer: string, literal: string, action: string)
    requires !HasWildcard(literal) && ActionMatches(literal, action)
    ensures ActionMatches(outer, literal) <==> ActionMatches(outer, action)
  {
    LowerKeepsWildcards(literal);
    assert Lower(literal) == Lower(action);
  }
}

/** Case-sensitive resource matching, with its own shortcut for a lone `*`. */
module ResourceMatcher {
  import opened Glob

  predicate ResourceMatches(pattern: string, resource: string) {
    if pattern == "*" then true
    else if '*' !in pattern && '?' !in pattern then pattern == resource
    else WildcardMatch(pattern, resource)
  }

  /** Both shortcuts agree with the glob language. */
  lemma ResourceMatchesDecides(pattern: string, resource: string)
    ensures ResourceMatches(pattern, resource) <==> InLanguage(pattern, resource)
  {
    MatchDecidesLanguage(pattern, resource);
    if pattern == "*" {
      LoneStar(resource);
    } else if !HasWildcard(pattern) {
      LiteralLanguage(pattern, resource);
    }
  }

  lemma ResourceTextIncludes(outer: string, inner: string, resource: string)
    requires ResourceMatches(outer, inner) && ResourceMatches(inner, resource)
    requires '?' !in outer || '*' !in inner
    ensures ResourceMatches(outer, resource)
  {
    ResourceMatchesDecides(outer, inner);
    ResourceMatchesDecides(inner, resource);
    ResourceMatchesDecides(outer, resource);
    MatchingTextIncludes(outer, inner, resource);
  }
}

/** The two prefix-only matchers, compared with the glob language. */
module PrefixMatchers {
  import opened Glob
  import ActionMatcher

  function FirstStar(pattern: string): (pos: nat)
    ensures pos <= |pattern| && '*' !in pattern[..pos]
    ensures pos < |pattern| ==> pattern[pos] == '*'
  {
    if pattern == "" || pattern[0] == '*' then 0 else 1 + FirstStar(pattern[1..])
  }

  predicate OnlyStars(s: string) {
    forall i :: 0 <= i < |s| ==> s[i] == '*'
  }

  /** Used for resource policies. */
  predicate MatchesPattern(pattern: string, value: string) {
    if pattern == "*" then true
    else if '*' !in pattern then pattern == value
    else pattern[..FirstStar(pattern)] <= value
  }

  /** Used for the dangerous-action registry. */
  predicate ActionMatchesPattern(pattern: string, action: string) {
    if pattern == "*" || pattern == action then true
    else if '*' in pattern then pattern[..FirstStar(pattern)] <= action
    else pattern == action
  }

  lemma MatchersAgree(pattern: string, value: string)
    ensures MatchesPattern(pattern, value) <==> ActionMatchesPattern(pattern, value)
    ensures MatchesPattern(pattern, value) <==>
            if '*' in pattern then pattern[..FirstStar(pattern)] <= value else pattern == value
  {}

  lemma {:induction false} ShortestKeepsPrefix(pattern: string, i: nat)
    requires i < FirstStar(pattern)
    ensures i < |Rewrite(pattern, Shortest)| && [Rewrite(pattern, Shortest)[i]] == Shortest(pattern[i])
  {
    if i > 0 {
      ShortestKeepsPrefix(pattern[1..], i - 1);
    }
  }

  lemma {:induction false} MinLengthOfConcat(a: string, b: string)
    ensures MinLength(a + b) == MinLength(a) + MinLength(b)
    ensures '*' !in a ==> MinLength(a) == |a|
    ensures !OnlyStars(a) ==> MinLength(a) > 0
  {
    if a == "" {
      assert a + b == b;
    } else {
      assert (a + b)[1..] == a[1..] + b;
      MinLengthOfConcat(a[1..], b);
      assert a == [a[0]] + a[1..];
    }
  }

  lemma {:induction false} StarsMatchAll(stars: string, text: string)
    requires stars != "" && OnlyStars(stars)
    ensures InLanguage(stars, text)
  {
    if |stars| == 1 {
      assert stars == "*";
      LoneStar(text);
    } else {
      StarsMatchAll(stars[1..], text);
      Cons('*', stars[1..], "", text);
      assert stars == "*" + stars[1..] && "" + text == text;
    }
  }

  lemma {:induction false} LiteralThen(prefix: string, rest: string, tail: string)
    requires !HasWildcard(prefix) && InLanguage(rest, tail)
    ensures InLanguage(prefix + rest, prefix + tail)
  {
    if prefix == "" {
      assert prefix + rest == rest && prefix + tail == tail;
    } else {
      LiteralThen(prefix[1..], rest, tail);
      Cons(prefix[0], prefix[1..] + rest, [prefix[0]], prefix[1..] + tail);
      assert prefix + rest == [prefix[0]] + (prefix[1..] + rest);
      assert prefix + tail == [prefix[0]] + (prefix[1..] + tail);
    }
  }

  lemma GlobWithinPrefix(pattern: string, value: string)
    requires '?' !in pattern[..FirstStar(pattern)] && InLanguage(pattern, value)
    ensures MatchesPattern(pattern, value)
  {
    var pos := FirstStar(pattern);
    assert pattern == pattern[..pos] + pattern[pos..];
    var left, right := SplitAt(pattern[..pos], pattern[pos..], value);
    LiteralLanguage(pattern[..pos], left);
    if '*' !in pattern {
      assert pos == |pattern| && pattern[pos..] == "";
      EmptyPattern(right);
      assert left + right == left;
    }
  }

  /** A prefix matcher accepts at least the glob language exactly when no `?` stands before
      the first `*`. */
  lemma PrefixCoversGlobIff(pattern: string)
    ensures (forall value :: InLanguage(pattern, value) ==> MatchesPattern(pattern, value))
        <==> '?' !in pattern[..FirstStar(pattern)]
  {
    var pos := FirstStar(pattern);
    if '?' in pattern[..pos] {
      var i: nat :| i < pos && pattern[i] == '?';
      NarrowedWitness(pattern);
      ShortestKeepsPrefix(pattern, i);
      var value := Rewrite(pattern, Shortest);
      assert pattern[..pos][i] == '?' && value[i] == 'a';
      assert InLanguage(pattern, value) && !MatchesPattern(pattern, value);
    } else {
      forall value | InLanguage(pattern, value) ensures MatchesPattern(pattern, value) {
        GlobWithinPrefix(pattern, value);
      }
    }
  }

  /** A prefix matcher is the glob matcher exactly when the pattern is a literal, possibly
      followed by stars only. */
  lemma PrefixEqualsGlobIff(pattern: string)
    ensures (forall value :: InLanguage(pattern, value) <==> MatchesPattern(pattern, value))
        <==> '?' !in pattern[..FirstStar(pattern)] &&
             OnlyStars(pattern[FirstStar(pattern)..])
  {
    var pos := FirstStar(pattern);
    var prefix, rest := pattern[..pos], pattern[pos..];
    assert pattern == prefix + rest;
    PrefixCoversGlobIff(pattern);
    if !OnlyStars(rest) {
      MinLengthOfConcat(prefix, rest);
      MinLengthOfConcat(rest, "");
      assert MatchesPattern(pattern, prefix);
      if InLanguage(pattern, prefix) {
        LanguageMinLength(pattern, prefix);
        assert false;
      }
    } else if '?' !in prefix {
      forall value | MatchesPattern(pattern, value) ensures InLanguage(pattern, value) {
        PrefixIsGlob(pattern, value);
      }
    }
  }

  lemma PrefixIsGlob(pattern: string, value: string)
    requires '?' !in pattern[..FirstStar(pattern)] && OnlyStars(pattern[FirstStar(pattern)..])
    requires MatchesPattern(pattern, value)
    ensures InLanguage(pattern, value)
  {
    MatchersAgree(pattern, value);
    if '*' in pattern {
      PrefixThenStars(pattern, FirstStar(pattern), value);
    } else {
      assert pattern[..FirstStar(pattern)] == pattern;
      LiteralLanguage(pattern, value);
    }
  }

  lemma PrefixThenStars(pattern: string, pos: nat, value: string)
    requires pos < |pattern| && !HasWildcard(pattern[..pos]) && OnlyStars(pattern[pos..])
    requires pattern[..pos] <= value
    ensures InLanguage(pattern, value)
  {
    StarsMatchAll(pattern[pos..], value[pos..]);
    LiteralThen(pattern[..pos], pattern[pos..], value[pos..]);
    assert pattern == pattern[..pos] + pattern[pos..] && value == pattern[..pos] + value[pos..];
  }

  /** On such patterns the registry matcher never accepts an action the engine rejects. */
  lemma RegistryWithinEngine(pattern: string, action: string)
    requires '?' !in pattern[..FirstStar(pattern)]
    requires OnlyStars(pattern[FirstStar(pattern)..])
    requires ActionMatchesPattern(pattern, action)
    ensures ActionMatcher.ActionMatches(pattern, action)
  {
    PrefixEqualsGlobIff(pattern);
    MatchersAgree(pattern, action);
    ActionMatcher.FoldingOnlyAdds(pattern, action);
    ActionMatcher.ActionMatchesDecides(pattern, action);
  }
}
