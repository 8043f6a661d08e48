/** One field of a statement, such as its Action and NotAction lists: the texts it admits, and
    the concrete names it reaches through the patterns among those texts. */
module Fields {
  import opened Glob
  import opened ActionMatcher
  import opened ResourceMatcher
  import opened PrefixMatchers

  // ----- patterns of wildcards only -----

  predicate OnlyWildcards(pattern: string) {
    forall i | 0 <= i < |pattern| :: pattern[i] == '*' || pattern[i] == '?'
  }

  /** Matches every text, or every text but the empty one. */
  ghost predicate NearlyAll(pattern: string) {
    OnlyWildcards(pattern) && '*' in pattern && MinLength(pattern) <= 1
  }

  lemma {:induction false} QuestionMarksMatch(marks: string, text: string)
    requires OnlyWildcards(marks) && '*' !in marks
    ensures MinLength(marks) == |marks|
    ensures InLanguage(marks, text) <==> |text| == |marks|
  {
    if marks == "" {
      EmptyPattern(text);
    } else {
      assert marks == [marks[0]] + marks[1..];
      CharPattern('?', marks[1..], text);
      QuestionMarksMatch(marks[1..], if text == "" then "" else text[1..]);
    }
  }

  lemma StarThen(rest: string, text: string, k: nat)
    requires k <= |text| && InLanguage(rest, text[k..])
    ensures InLanguage("*" + rest, text)
  {
    StarPattern(rest, text);
  }

  lemma StarThenMarks(marks: string, text: string)
    requires OnlyWildcards(marks) && '*' !in marks && |text| >= |marks|
    ensures InLanguage("*" + marks, text)
  {
    var k := |text| - |marks|;
    QuestionMarksMatch(marks, text[k..]);
    StarThen(marks, text, k);
  }

  lemma {:induction false} WildcardsMatch(pattern: string, text: string)
    requires OnlyWildcards(pattern) && '*' in pattern && |text| >= MinLength(pattern)
    ensures InLanguage(pattern, text)
  {
    var rest := pattern[1..];
    assert pattern == [pattern[0]] + rest;
    if pattern[0] == '?' {
      WildcardsMatch(rest, text[1..]);
      CharPattern('?', rest, text);
    } else if '*' in rest {
      WildcardsMatch(rest, text);
      assert text[0..] == text;
      StarThen(rest, text, 0);
    } else {
      QuestionMarksMatch(rest, "");
      StarThenMarks(rest, text);
    }
  }

  lemma {:induction false} LiteralOccurs(pattern: string, text: string, c: char)
    requires InLanguage(pattern, text) && c in pattern && c != '*' && c != '?'
    ensures c in text
  {
    var piece, tail := Uncons(pattern, text);
    if pattern[0] == c {
      assert piece == [c] && text[0] == c;
    } else {
      assert pattern == [pattern[0]] + pattern[1..];
      LiteralOccurs(pattern[1..], tail, c);
    }
  }

  function Stars(n: nat): string {
    seq(n, i => '*')
  }

  /** Unless it matches nearly everything, a pattern misses the text of one that stands for all. */
  lemma MissesSomeStars(pattern: string) returns (n: nat)
    requires !NearlyAll(pattern)
    ensures n > 0 && !InLanguage(pattern, Stars(n))
  {
    n := if OnlyWildcards(pattern) && '*' !in pattern then |pattern| + 1 else 1;
    if OnlyWildcards(pattern) {
      if '*' !in pattern {
        QuestionMarksMatch(pattern, Stars(n));
      } else if InLanguage(pattern, Stars(n)) {
        LanguageMinLength(pattern, Stars(n));
        assert false;
      }
    } else {
      var i: nat :| i < |pattern| && pattern[i] != '*' && pattern[i] != '?';
      if InLanguage(pattern, Stars(n)) {
        LiteralOccurs(pattern, Stars(n), pattern[i]);
        assert false;
      }
    }
  }

  /** A pattern that matches so many stars matches every text of that length. */
  lemma StarsSpeakForAll(pattern: string, text: string)
    requires InLanguage(pattern, Stars(|text|))
    ensures InLanguage(pattern, text)
  {
    if text == "" {
      assert Stars(0) == "";
    } else {
      forall i | 0 <= i < |pattern| ensures pattern[i] == '*' || pattern[i] == '?' {
        if pattern[i] != '*' && pattern[i] != '?' {
          LiteralOccurs(pattern, Stars(|text|), pattern[i]);
        }
      }
      LanguageMinLength(pattern, Stars(|text|));
      if '*' in pattern {
        WildcardsMatch(pattern, text);
      } else {
        QuestionMarksMatch(pattern, Stars(|text|));
        QuestionMarksMatch(pattern, text);
      }
    }
  }

  // ----- what the texts a pattern matches stand for -----

  /** The pattern with each `?` widened to `*`. */
  function Starred(pattern: string): string {
    seq(|pattern|, i requires 0 <= i < |pattern| => if pattern[i] == '?' then '*' else pattern[i])
  }

  lemma StarredHasNoMark(pattern: string)
    ensures '?' !in Starred(pattern)
  {}

  lemma {:induction false} MatchesItself(pattern: string)
    ensures InLanguage(pattern, pattern)
  {
    if pattern == "" {
      EmptyPattern("");
    } else {
      MatchesItself(pattern[1..]);
      Cons(pattern[0], pattern[1..], [pattern[0]], pattern[1..]);
      assert pattern == [pattern[0]] + pattern[1..];
    }
  }

  lemma {:induction false} MatchesStarred(pattern: string)
    ensures InLanguage(pattern, Starred(pattern))
  {
    if pattern == "" {
      EmptyPattern("");
    } else {
      var c, rest := pattern[0], pattern[1..];
      MatchesStarred(rest);
      Cons(c, rest, [Starred(pattern)[0]], Starred(rest));
      assert pattern == [c] + rest && Starred(pattern) == [Starred(pattern)[0]] + Starred(rest);
    }
  }

  lemma StarredAccepts(pattern: string, text: string)
    requires InLanguage(pattern, text)
    ensures InLanguage(Starred(pattern), text)
  {
    var pieces :| Splits(pattern, pieces, text);
    assert Splits(Starred(pattern), pieces, text);
  }

  /** Through the texts it matches, a pattern reaches exactly what its starred form matches. */
  lemma ReachedIff(pattern: string, text: string)
    ensures InLanguage(Starred(pattern), text) <==>
            exists inner :: InLanguage(pattern, inner) && InLanguage(inner, text)
  {
    MatchesStarred(pattern);
    StarredHasNoMark(pattern);
    forall inner | InLanguage(pattern, inner) && InLanguage(inner, text) ensures InLanguage(Starred(pattern), text) {
      StarredAccepts(pattern, inner);
      MatchingTextIncludes(Starred(pattern), inner, text);
    }
  }

  lemma {:induction false} ShortestIsLiteral(pattern: string)
    ensures !HasWildcard(Rewrite(pattern, Shortest))
  {
    if pattern != "" {
      ShortestIsLiteral(pattern[1..]);
    }
  }

  lemma {:induction false} DropIsLiteral(pattern: string)
    ensures !HasWildcard(Rewrite(pattern, Drop))
  {
    if pattern != "" {
      DropIsLiteral(pattern[1..]);
    }
  }

  // ----- both matchers at once: actions fold case, resources do not -----

  function Fold(fold: bool, s: string): string {
    if fold then Lower(s) else s
  }

  predicate Matches(fold: bool, pattern: string, text: string) {
    if fold then ActionMatches(pattern, text) else ResourceMatches(pattern, text)
  }

  lemma MatchesDecides(fold: bool, pattern: string, text: string)
    ensures Matches(fold, pattern, text) <==> InLanguage(Fold(fold, pattern), Fold(fold, text))
  {
    ActionMatchesDecides(pattern, text);
    ResourceMatchesDecides(pattern, text);
  }

  lemma FoldFacts(fold: bool, pattern: string)
    ensures |Fold(fold, pattern)| == |pattern| && Fold(fold, Fold(fold, pattern)) == Fold(fold, pattern)
    ensures Fold(fold, Starred(pattern)) == Starred(Fold(fold, pattern))
    ensures HasWildcard(Fold(fold, pattern)) <==> HasWildcard(pattern)
    ensures '?' in Fold(fold, pattern) <==> '?' in pattern
  {
    LowerKeepsWildcards(pattern);
  }

  lemma FoldStars(fold: bool, n: nat)
    ensures Fold(fold, Stars(n)) == Stars(n)
  {}

  lemma MatchesOneself(fold: bool, pattern: string)
    ensures Matches(fold, pattern, pattern)
  {
    MatchesItself(Fold(fold, pattern));
    MatchesDecides(fold, pattern, pattern);
  }

  lemma ReachIff(fold: bool, pattern: string, text: string)
    ensures Matches(fold, Starred(pattern), text) <==>
            exists inner :: Matches(fold, pattern, inner) && Matches(fold, inner, text)
  {
    var folded := Fold(fold, pattern);
    FoldFacts(fold, pattern);
    MatchesDecides(fold, Starred(pattern), text);
    ReachedIff(folded, Fold(fold, text));
    if Matches(fold, Starred(pattern), text) {
      MatchesStarred(folded);
      MatchesDecides(fold, pattern, Starred(pattern));
      assert Matches(fold, pattern, Starred(pattern));
    }
    forall inner | Matches(fold, pattern, inner) && Matches(fold, inner, text)
      ensures Matches(fold, Starred(pattern), text)
    {
      MatchesDecides(fold, pattern, inner);
      MatchesDecides(fold, inner, text);
    }
  }

  lemma StarsReachAll(fold: bool, n: nat, text: string)
    requires n > 0 || text == ""
    ensures Matches(fold, Stars(n), text)
  {
    MatchesDecides(fold, Stars(n), text);
    FoldStars(fold, n);
    if n > 0 {
      assert OnlyStars(Stars(n)) && |Stars(n)| > 0;
      StarsMatchAll(Stars(n), Fold(fold, text));
    } else {
      FoldFacts(fold, text);
      EmptyPattern(Fold(fold, text));
      assert Stars(0) == "";
    }
  }

  lemma EmptyReachesEmpty(fold: bool, text: string)
    ensures Matches(fold, "", text) <==> text == ""
  {
    MatchesDecides(fold, "", text);
    FoldFacts(fold, text);
    FoldFacts(fold, "");
    EmptyPattern(Fold(fold, text));
  }

  lemma StarsSpeak(fold: bool, pattern: string, text: string)
    requires Matches(fold, pattern, Stars(|text|))
    ensures Matches(fold, pattern, text)
  {
    MatchesDecides(fold, pattern, Stars(|text|));
    MatchesDecides(fold, pattern, text);
    FoldStars(fold, |text|);
    FoldFacts(fold, text);
    StarsSpeakForAll(Fold(fold, pattern), Fold(fold, text));
  }

  /** Some concrete name the pattern matches. */
  lemma LiteralOf(fold: bool, pattern: string) returns (name: string)
    ensures Matches(fold, pattern, name) && !HasWildcard(name)
  {
    var folded := Fold(fold, pattern);
    var shortest := Rewrite(folded, Shortest);
    name := shortest;
    NarrowedWitness(folded);
    ShortestIsLiteral(folded);
    FoldFacts(fold, pattern);
    MatchesDecides(fold, pattern, name);
    if fold {
      FoldingOnlyAdds(folded, name);
    }
  }

  // ----- lists of patterns -----

  predicate Any(fold: bool, list: seq<string>, text: string) {
    exists p | p in list :: Matches(fold, p, text)
  }

  predicate AnyStarred(fold: bool, list: seq<string>, text: string) {
    exists p | p in list :: Matches(fold, Starred(p), text)
  }

  /** The list matches every concrete name that one of its patterns reaches. */
  ghost predicate ListDescends(fold: bool, list: seq<string>) {
    forall name :: !HasWildcard(name) && AnyStarred(fold, list, name) ==> Any(fold, list, name)
  }

  function Longest(list: seq<string>): (n: nat)
    ensures forall p :: p in list ==> |p| <= n
  {
    if list == [] then 0
    else
      var n := Longest(list[1..]);
      assert list == [list[0]] + list[1..];
      if |list[0]| > n then |list[0]| else n
  }

  /** For every number of stars, from one up to where it makes no more difference, some pattern
      of the list matches so many. */
  predicate StarsCovered(fold: bool, list: seq<string>) {
    forall n | 0 < n <= Longest(list) + 1 :: Any(fold, list, Stars(n))
  }

  /** Then some pattern matches any other number of stars, so any text but the empty one. */
  lemma StarsCoveredMatchAll(fold: bool, list: seq<string>, text: string)
    requires StarsCovered(fold, list) && text != ""
    ensures Any(fold, list, text)
  {
    if |text| <= Longest(list) + 1 {
      assert Any(fold, list, Stars(|text|));
      var p :| p in list && Matches(fold, p, Stars(|text|));
      StarsSpeak(fold, p, text);
    } else {
      var n := Longest(list) + 1;
      assert Any(fold, list, Stars(n));
      var p :| p in list && Matches(fold, p, Stars(n));
      LongTextsAlike(fold, p, n, text);
    }
  }

  /** What matches more stars than it is long matches every longer text. */
  lemma LongTextsAlike(fold: bool, pattern: string, n: nat, text: string)
    requires |pattern| < n <= |text| && Matches(fold, pattern, Stars(n))
    ensures Matches(fold, pattern, text)
  {
    var folded := Fold(fold, pattern);
    MatchesDecides(fold, pattern, Stars(n));
    MatchesDecides(fold, pattern, text);
    FoldStars(fold, n);
    FoldFacts(fold, pattern);
    FoldFacts(fold, text);
    forall i | 0 <= i < |folded| ensures folded[i] == '*' || folded[i] == '?' {
      if folded[i] != '*' && folded[i] != '?' {
        LiteralOccurs(folded, Stars(n), folded[i]);
      }
    }
    if '*' !in folded {
      QuestionMarksMatch(folded, Stars(n));
    }
    LanguageMinLength(folded, Stars(n));
    WildcardsMatch(folded, Fold(fold, text));
  }

  // ----- fields -----

  /** What a statement says of actions, or of resources. */
  datatype Field = Field(fold: bool, listed: seq<string>, excluded: seq<string>)

  predicate Admits(f: Field, text: string) {
    if f.excluded != [] then !Any(f.fold, f.excluded, text)
    else if f.listed != [] then Any(f.fold, f.listed, text)
    else true
  }

  /** Some text the field admits stands for this one. */
  predicate Reaches(f: Field, text: string) {
    if f.excluded != [] then
      !StarsCovered(f.fold, f.excluded) || (text == "" && !Any(f.fold, f.excluded, ""))
    else if f.listed != [] then AnyStarred(f.fold, f.listed, text)
    else true
  }

  /** It does so exactly then. */
  lemma ReachesIff(f: Field, text: string)
    ensures Reaches(f, text) <==> exists inner :: Admits(f, inner) && Matches(f.fold, inner, text)
  {
    if f.excluded != [] {
      ExcludedReachesIff(f, text);
    } else if f.listed != [] {
      ListedReachesIff(f, text);
    } else {
      MatchesOneself(f.fold, text);
    }
  }

  lemma ListedReachesIff(f: Field, text: string)
    requires f.excluded == [] && f.listed != []
    ensures Reaches(f, text) <==> exists inner :: Admits(f, inner) && Matches(f.fold, inner, text)
  {
    forall p ensures Matches(f.fold, Starred(p), text) <==>
                     exists inner :: Matches(f.fold, p, inner) && Matches(f.fold, inner, text)
    {
      ReachIff(f.fold, p, text);
    }
    if Reaches(f, text) {
      var p :| p in f.listed && Matches(f.fold, Starred(p), text);
      var inner :| Matches(f.fold, p, inner) && Matches(f.fold, inner, text);
      assert Admits(f, inner);
    }
  }

  lemma ExcludedReachesIff(f: Field, text: string)
    requires f.excluded != []
    ensures Reaches(f, text) <==> exists inner :: Admits(f, inner) && Matches(f.fold, inner, text)
  {
    if !StarsCovered(f.fold, f.excluded) {
      var n :| 0 < n <= Longest(f.excluded) + 1 && !Any(f.fold, f.excluded, Stars(n));
      StarsReachAll(f.fold, n, text);
      assert Admits(f, Stars(n));
    } else {
      EmptyReachesEmpty(f.fold, text);
      forall inner | Admits(f, inner) ensures inner == "" {
        if inner != "" {
          StarsCoveredMatchAll(f.fold, f.excluded, inner);
        }
      }
    }
  }

  /** The field admits every concrete name it reaches. */
  ghost predicate FieldDescends(f: Field) {
    if f.excluded != [] then StarsCovered(f.fold, f.excluded)
    else f.listed != [] ==> ListDescends(f.fold, f.listed)
  }

  lemma FieldDescendsIff(f: Field)
    ensures FieldDescends(f) <==> forall name :: !HasWildcard(name) && Reaches(f, name) ==> Admits(f, name)
  {
    if f.excluded != [] && !StarsCovered(f.fold, f.excluded) {
      var name := LiteralOf(f.fold, f.excluded[0]);
      assert Any(f.fold, f.excluded, name);
      assert Reaches(f, name) && !Admits(f, name);
    }
  }

  /** The field reaches no name at all. */
  predicate AdmitsNoText(f: Field) {
    f.excluded != [] && StarsCovered(f.fold, f.excluded) && Any(f.fold, f.excluded, "")
  }

  lemma AdmitsNoTextIff(f: Field)
    ensures AdmitsNoText(f) <==> forall text :: !Admits(f, text)
    ensures AdmitsNoText(f) <==> forall name :: !HasWildcard(name) ==> !Reaches(f, name)
  {
    if AdmitsNoText(f) {
      forall text ensures !Admits(f, text) {
        if text != "" {
          StarsCoveredMatchAll(f.fold, f.excluded, text);
        }
      }
    } else {
      var name := ReachedName(f);
      ReachesIff(f, name);
    }
  }

  lemma ReachedName(f: Field) returns (name: string)
    requires !AdmitsNoText(f)
    ensures !HasWildcard(name) && Reaches(f, name)
  {
    name := "";
    if f.excluded == [] && f.listed != [] {
      name := LiteralOf(f.fold, Starred(f.listed[0]));
      assert AnyStarred(f.fold, f.listed, name);
    }
  }

  /** The field that admits what this one does not, if there is any. */
  function Opposite(f: Field): Field {
    if f.excluded != [] then Field(f.fold, f.excluded, []) else Field(f.fold, [], f.listed)
  }

  predicate Restricts(f: Field) { f.listed != [] || f.excluded != [] }

  lemma OppositeAdmits(f: Field, text: string)
    requires Restricts(f)
    ensures Admits(Opposite(f), text) <==> !Admits(f, text)
  {}

  /** No text the field refuses stands for a concrete name it admits. */
  ghost predicate RefusalDescends(f: Field) {
    Restricts(f) ==> FieldDescends(Opposite(f))
  }

  lemma RefusalDescendsIff(f: Field)
    ensures RefusalDescends(f) <==>
            forall inner, name :: !HasWildcard(name) && !Admits(f, inner) && Matches(f.fold, inner, name)
                                  ==> !Admits(f, name)
  {
    if Restricts(f) {
      var o := Opposite(f);
      FieldDescendsIff(o);
      forall name ensures Reaches(o, name) <==> exists inner :: Admits(o, inner) && Matches(f.fold, inner, name) {
        ReachesIff(o, name);
      }
      forall text ensures Admits(o, text) <==> !Admits(f, text) {
        OppositeAdmits(f, text);
      }
    }
  }

  // ----- a single pattern -----

  /** A list of one pattern descends exactly when the pattern has no `?`. */
  lemma OneDescendsIff(fold: bool, pattern: string)
    ensures ListDescends(fold, [pattern]) <==> '?' !in pattern
  {
    var folded := Fold(fold, pattern);
    FoldFacts(fold, pattern);
    if '?' in pattern {
      var name := DroppedName(fold, pattern);
      assert AnyStarred(fold, [pattern], name) && !Any(fold, [pattern], name);
    } else {
      assert Starred(pattern) == pattern;
      forall name | AnyStarred(fold, [pattern], name) ensures Any(fold, [pattern], name) {
        assert pattern in [pattern];
      }
    }
  }

  /** The pattern without its wildcards is reached, and is too short to be matched. */
  lemma DroppedName(fold: bool, pattern: string) returns (name: string)
    requires '?' in pattern
    ensures !HasWildcard(name) && Matches(fold, Starred(pattern), name) && !Matches(fold, pattern, name)
  {
    var folded := Fold(fold, pattern);
    name := Rewrite(folded, Drop);
    FoldFacts(fold, pattern);
    DropIsLiteral(folded);
    WidenedWitness(folded);
    ReachedIff(folded, name);
    if fold { FoldedRewrites(folded); }
    MatchesDecides(fold, Starred(pattern), name);
    MatchesDecides(fold, pattern, name);
    if Matches(fold, pattern, name) {
      LanguageMinLength(folded, name);
      assert false;
    }
  }

  lemma FoldedNearlyAll(fold: bool, pattern: string)
    ensures NearlyAll(Fold(fold, pattern)) <==> NearlyAll(pattern)
  {
    forall i | 0 <= i < |pattern|
      ensures Lower(pattern)[i] == '*' <==> pattern[i] == '*'
      ensures Lower(pattern)[i] == '?' <==> pattern[i] == '?'
    {}
    if OnlyWildcards(pattern) {
      assert Lower(pattern) == pattern;
    }
  }

  /** A list of one pattern covers the stars exactly when it is wildcards only, with a `*` and
      at most one `?`. */
  lemma OneCoversStarsIff(fold: bool, pattern: string)
    ensures StarsCovered(fold, [pattern]) <==> NearlyAll(pattern)
  {
    var folded := Fold(fold, pattern);
    FoldedNearlyAll(fold, pattern);
    if NearlyAll(pattern) {
      forall n | 0 < n <= Longest([pattern]) + 1 ensures Any(fold, [pattern], Stars(n)) {
        MatchesDecides(fold, pattern, Stars(n));
        FoldStars(fold, n);
        WildcardsMatch(folded, Stars(n));
        assert pattern in [pattern];
      }
    } else {
      var n := MissesSomeStars(folded);
      FoldStars(fold, n);
      MatchesDecides(fold, pattern, Stars(n));
      if StarsCovered(fold, [pattern]) {
        StarsCoveredMatchAll(fold, [pattern], Stars(n));
        assert false;
      }
    }
  }
}
