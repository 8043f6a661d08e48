/** The wildcard matcher shared by every IAM evaluator, the language it decides, and the
    algebra of matching one pattern against the text of another. */
module Glob {

  /** Recursive matching on two indices: `*` matches any run of characters, `?` exactly one. */
  predicate MatchFrom(pattern: string, text: string, p: nat, t: nat)
    requires p <= |pattern| && t <= |text|
    decreases |pattern| - p
  {
    if p == |pattern| && t == |text| then true
    else if p == |pattern| then false
    else if pattern[p] == '*' then
      if p == |pattern| - 1 then true
      else
        var q := p + 1;
        exists next | t <= next <= |text| :: MatchFrom(pattern, text, q, next)
    else if t == |text| then false
    else if pattern[p] == '?' then MatchFrom(pattern, text, p + 1, t + 1)
    else if pattern[p] == text[t] then MatchFrom(pattern, text, p + 1, t + 1)
    else false
  }

  predicate WildcardMatch(pattern: string, text: string) {
    MatchFrom(pattern, text, 0, 0)
  }

  predicate HasWildcard(pattern: string) {
    '*' in pattern || '?' in pattern
  }

  // ----- the declarative language -----

  ghost function Concat(pieces: seq<string>): string {
    if pieces == [] then "" else pieces[0] + Concat(pieces[1..])
  }

  /** What one pattern character may stand for. */
  ghost predicate Fits(c: char, piece: string) {
    if c == '*' then true else if c == '?' then |piece| == 1 else piece == [c]
  }

  /** `text` is cut into one piece per pattern character, and each piece fits its character. */
  ghost predicate Splits(pattern: string, pieces: seq<string>, text: string) {
    && |pieces| == |pattern|
    && Concat(pieces) == text
    && forall i :: 0 <= i < |pattern| ==> Fits(pattern[i], pieces[i])
  }

  ghost predicate InLanguage(pattern: string, text: string) {
    exists pieces :: Splits(pattern, pieces, text)
  }

  /** Every string of `inner`'s language is in `outer`'s. */
  ghost predicate Includes(outer: string, inner: string) {
    forall text :: InLanguage(inner, text) ==> InLanguage(outer, text)
  }

  // ----- unfolding the language one pattern character at a time -----

  lemma Cons(c: char, rest: string, piece: string, tail: string)
    requires Fits(c, piece) && InLanguage(rest, tail)
    ensures InLanguage([c] + rest, piece + tail)
  {
    var pieces :| Splits(rest, pieces, tail);
    var all := [piece] + pieces;
    assert all[1..] == pieces;
    assert Splits([c] + rest, all, piece + tail);
  }

  lemma Uncons(pattern: string, text: string) returns (piece: string, tail: string)
    requires pattern != "" && InLanguage(pattern, text)
    ensures Fits(pattern[0], piece) && text == piece + tail && InLanguage(pattern[1..], tail)
  {
    var pieces :| Splits(pattern, pieces, text);
    piece, tail := pieces[0], Concat(pieces[1..]);
    assert Splits(pattern[1..], pieces[1..], tail);
  }

  lemma EmptyPattern(text: string)
    ensures InLanguage("", text) <==> text == ""
  {
    assert text == "" ==> Splits("", [], text);
  }

  lemma OnePattern(c: char, piece: string)
    ensures InLanguage([c], piece) <==> Fits(c, piece)
  {
    EmptyPattern("");
    if Fits(c, piece) {
      Cons(c, "", piece, "");
      assert [c] + "" == [c] && piece + "" == piece;
    }
    if InLanguage([c], piece) {
      var first, tail := Uncons([c], piece);
      EmptyPattern(tail);
      assert piece == first;
    }
  }

  lemma StarPattern(rest: string, text: string)
    ensures InLanguage("*" + rest, text) <==> exists k: nat | k <= |text| :: InLanguage(rest, text[k..])
  {
    if InLanguage("*" + rest, text) {
      var piece, tail := Uncons("*" + rest, text);
      assert ("*" + rest)[1..] == rest && text[|piece|..] == tail;
    }
    if k: nat :| k <= |text| && InLanguage(rest, text[k..]) {
      Cons('*', rest, text[..k], text[k..]);
      assert text[..k] + text[k..] == text;
    }
  }

  lemma CharPattern(c: char, rest: string, text: string)
    requires c != '*'
    ensures InLanguage([c] + rest, text) <==>
            text != "" && (c == '?' || c == text[0]) && InLanguage(rest, text[1..])
  {
    if InLanguage([c] + rest, text) {
      var piece, tail := Uncons([c] + rest, text);
      assert ([c] + rest)[1..] == rest && text[1..] == tail;
    }
    if text != "" && (c == '?' || c == text[0]) && InLanguage(rest, text[1..]) {
      Cons(c, rest, text[..1], text[1..]);
      assert text[..1] + text[1..] == text;
    }
  }

  // ----- the matcher decides the language -----

  lemma {:induction false} MatchFromDecides(pattern: string, text: string, p: nat, t: nat)
    requires p <= |pattern| && t <= |text|
    ensures MatchFrom(pattern, text, p, t) <==> InLanguage(pattern[p..], text[t..])
    decreases |pattern| - p
  {
    if p == |pattern| {
      EmptyPattern(text[t..]);
    } else {
      var rest, tail := pattern[p + 1..], text[t..];
      assert pattern[p..] == [pattern[p]] + rest;
      if pattern[p] == '*' {
        StarPattern(rest, tail);
        if p == |pattern| - 1 {
          EmptyPattern(tail[|tail|..]);
        } else {
          var q := p + 1;
          forall next | t <= next <= |text|
            ensures MatchFrom(pattern, text, q, next) <==> InLanguage(rest, tail[next - t..])
          {
            MatchFromDecides(pattern, text, q, next);
            assert text[next..] == tail[next - t..];
          }
          if k: nat :| k <= |tail| && InLanguage(rest, tail[k..]) {
            assert MatchFrom(pattern, text, q, t + k);
          }
        }
      } else {
        CharPattern(pattern[p], rest, tail);
        if t < |text| {
          MatchFromDecides(pattern, text, p + 1, t + 1);
          assert tail[1..] == text[t + 1..];
        }
      }
    }
  }

  /** The matcher accepts exactly the declarative glob language. */
  lemma MatchDecidesLanguage(pattern: string, text: string)
    ensures WildcardMatch(pattern, text) <==> InLanguage(pattern, text)
  {
    MatchFromDecides(pattern, text, 0, 0);
    assert pattern[0..] == pattern && text[0..] == text;
  }

  lemma {:induction false} LiteralLanguage(pattern: string, text: string)
    requires !HasWildcard(pattern)
    ensures InLanguage(pattern, text) <==> pattern == text
  {
    if pattern == "" {
      EmptyPattern(text);
    } else {
      assert pattern == [pattern[0]] + pattern[1..];
      CharPattern(pattern[0], pattern[1..], text);
      if text != "" {
        LiteralLanguage(pattern[1..], text[1..]);
        assert text == [text[0]] + text[1..];
      }
    }
  }

  lemma LoneStar(text: string)
    ensures InLanguage("*", text)
  {
    OnePattern('*', text);
  }

  // ----- pattern against pattern -----

  lemma {:induction false} SplitAt(a: string, b: string, text: string) returns (left: string, right: string)
    requires InLanguage(a + b, text)
    ensures text == left + right && InLanguage(a, left) && InLanguage(b, right)
  {
    if a == "" {
      left, right := "", text;
      EmptyPattern("");
      assert a + b == b;
    } else {
      var piece, tail := Uncons(a + b, text);
      assert (a + b)[1..] == a[1..] + b;
      var l, r := SplitAt(a[1..], b, tail);
      left, right := piece + l, r;
      Cons(a[0], a[1..], piece, l);
      assert a == [a[0]] + a[1..];
    }
  }

  /** If `outer` matches the text of `inner`, and no `?` of `outer` can stand on a `*` of
      `inner`, then `outer` matches everything `inner` does. */
  lemma {:induction false} MatchingTextIncludes(outer: string, inner: string, text: string)
    requires InLanguage(outer, inner) && InLanguage(inner, text)
    requires '?' !in outer || '*' !in inner
    ensures InLanguage(outer, text)
  {
    if outer == "" {
      EmptyPattern(inner);
    } else {
      var piece, tail := Uncons(outer, inner);
      var left, right := SplitAt(piece, tail, text);
      MatchingTextIncludes(outer[1..], tail, right);
      if outer[0] != '*' {
        assert piece == [piece[0]];
        OnePattern(piece[0], left);
      }
      Cons(outer[0], outer[1..], left, right);
      assert outer == [outer[0]] + outer[1..];
    }
  }

  // ----- the side condition is exact, on either side -----

  /** Rewrites each pattern character to a string. */
  ghost function Rewrite(pattern: string, f: char -> string): string {
    if pattern == "" then "" else f(pattern[0]) + Rewrite(pattern[1..], f)
  }

  ghost function Drop(c: char): string { if c == '*' || c == '?' then "" else [c] }
  ghost function Widen(c: char): string { if c == '*' then "" else if c == '?' then "*" else [c] }
  ghost function Narrow(c: char): string { if c == '*' then "?" else [c] }
  ghost function Shortest(c: char): string { if c == '*' then "" else if c == '?' then "a" else [c] }

  ghost function MinLength(pattern: string): nat {
    if pattern == "" then 0 else (if pattern[0] == '*' then 0 else 1) + MinLength(pattern[1..])
  }

  lemma {:induction false} LanguageMinLength(pattern: string, text: string)
    requires InLanguage(pattern, text)
    ensures |text| >= MinLength(pattern)
  {
    if pattern != "" {
      var piece, tail := Uncons(pattern, text);
      LanguageMinLength(pattern[1..], tail);
    }
  }

  lemma {:induction false} WidenedWitness(outer: string)
    ensures InLanguage(outer, Rewrite(outer, Widen))
    ensures InLanguage(Rewrite(outer, Widen), Rewrite(outer, Drop))
    ensures |Rewrite(outer, Drop)| <= MinLength(outer)
    ensures '?' in outer ==> |Rewrite(outer, Drop)| < MinLength(outer)
  {
    if outer == "" {
      EmptyPattern("");
    } else {
      var c, rest := outer[0], outer[1..];
      WidenedWitness(rest);
      assert outer == [c] + rest;
      Cons(c, rest, Widen(c), Rewrite(rest, Widen));
      if c == '*' {
        assert Widen(c) + Rewrite(rest, Widen) == Rewrite(rest, Widen);
        assert Drop(c) + Rewrite(rest, Drop) == Rewrite(rest, Drop);
      } else if c == '?' {
        Cons('*', Rewrite(rest, Widen), Drop(c), Rewrite(rest, Drop));
      } else {
        Cons(c, Rewrite(rest, Widen), Drop(c), Rewrite(rest, Drop));
      }
    }
  }

  /** For a fixed limiting pattern: matching the text of a pattern is sound for every
      pattern exactly when the limiting pattern has no `?`. */
  lemma SoundOuterIff(outer: string)
    ensures (forall inner :: InLanguage(outer, inner) ==> Includes(outer, inner)) <==> '?' !in outer
  {
    if '?' in outer {
      WidenedWitness(outer);
      var inner, text := Rewrite(outer, Widen), Rewrite(outer, Drop);
      if Includes(outer, inner) {
        LanguageMinLength(outer, text);
        assert false;
      }
    } else {
      forall inner, text | InLanguage(outer, inner) && InLanguage(inner, text)
        ensures InLanguage(outer, text)
      {
        MatchingTextIncludes(outer, inner, text);
      }
    }
  }

  lemma {:induction false} NarrowedWitness(inner: string)
    ensures InLanguage(Rewrite(inner, Narrow), inner)
    ensures InLanguage(inner, Rewrite(inner, Shortest))
    ensures |Rewrite(inner, Shortest)| <= MinLength(Rewrite(inner, Narrow))
    ensures '*' in inner ==> |Rewrite(inner, Shortest)| < MinLength(Rewrite(inner, Narrow))
  {
    if inner == "" {
      EmptyPattern("");
    } else {
      var c, rest := inner[0], inner[1..];
      NarrowedWitness(rest);
      assert inner == [c] + rest;
      Cons(Narrow(c)[0], Rewrite(rest, Narrow), [c], rest);
      assert Rewrite(inner, Narrow) == [Narrow(c)[0]] + Rewrite(rest, Narrow);
      Cons(c, rest, Shortest(c), Rewrite(rest, Shortest));
      assert Rewrite(inner, Narrow)[1..] == Rewrite(rest, Narrow);
    }
  }

  /** For a fixed matched pattern: being matched as text by any limiting pattern is sound
      exactly when the matched pattern has no `*`. */
  lemma SoundInnerIff(inner: string)
    ensures (forall outer :: InLanguage(outer, inner) ==> Includes(outer, inner)) <==> '*' !in inner
  {
    if '*' in inner {
      NarrowedWitness(inner);
      var outer, text := Rewrite(inner, Narrow), Rewrite(inner, Shortest);
      if Includes(outer, inner) {
        LanguageMinLength(outer, text);
        assert false;
      }
    } else {
      forall outer, text | InLanguage(outer, inner) && InLanguage(inner, text)
        ensures InLanguage(outer, text)
      {
        MatchingTextIncludes(outer, inner, text);
      }
    }
  }
}
