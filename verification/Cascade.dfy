/** Harmonic-mean aggregation of scenario scores, over the reals. */
module Cascade {
  import opened Seqs

  datatype Score = Finite(value: real) | NotFinite

  predicate Counts(s: Score) {
    s.Finite? && s.value > 0.0
  }

  type Positive = x: real | x > 0.0 witness 1.0

  function Positives(scores: seq<Score>): (xs: seq<Positive>)
    ensures xs == [] <==> forall s :: s in scores ==> !Counts(s)
  {
    if scores == [] then []
    else
      assert scores == [scores[0]] + scores[1..];
      (if Counts(scores[0]) then [scores[0].value] else []) + Positives(scores[1..])
  }

  function Inverse(x: Positive): (i: Positive)
    ensures x * i == 1.0
  {
    1.0 / x
  }

  function Reciprocals(xs: seq<Positive>): (sum: real)
    ensures sum >= 0.0 && (xs != [] ==> sum > 0.0)
  {
    if xs == [] then 0.0 else Inverse(xs[0]) + Reciprocals(xs[1..])
  }

  function HarmonicMean(scores: seq<Score>): real {
    var xs := Positives(scores);
    if xs == [] then 0.0 else |xs| as real / Reciprocals(xs)
  }

  // ----- the classical bounds -----

  function Total(xs: seq<Positive>): real {
    if xs == [] then 0.0 else xs[0] + Total(xs[1..])
  }

  function MinOf(xs: seq<Positive>): (m: Positive)
    requires xs != []
    ensures m in xs && forall i :: 0 <= i < |xs| ==> m <= xs[i]
  {
    if |xs| == 1 then xs[0]
    else
      var m := MinOf(xs[1..]);
      assert forall i :: 0 < i < |xs| ==> xs[i] == xs[1..][i - 1];
      if xs[0] < m then xs[0] else m
  }

  function MaxOf(xs: seq<Positive>): (m: Positive)
    requires xs != []
    ensures m in xs && forall i :: 0 <= i < |xs| ==> xs[i] <= m
  {
    if |xs| == 1 then xs[0]
    else
      var m := MaxOf(xs[1..]);
      assert forall i :: 0 < i < |xs| ==> xs[i] == xs[1..][i - 1];
      if xs[0] > m then xs[0] else m
  }

  /** A product the verifier need not multiply out. */
  function Times(a: real, b: real): real { a * b }

  lemma ScaleUp(a: real, b: real, r: real)
    requires r > 0.0
    ensures a > b ==> a * r > b * r
    ensures a <= b ==> a * r <= b * r
  {
    assert (a - b) * r == a * r - b * r;
  }

  lemma BoundStep(lo: real, x: real, i: real, r: real, m: real)
    requires lo <= x && i > 0.0 && x * i == 1.0 && Times(lo, r) <= m
    ensures Times(lo, i + r) <= m + 1.0
  {
    ScaleUp(lo, x, i);
    assert lo * (i + r) == lo * i + lo * r;
  }

  lemma {:induction false} ReciprocalBound(xs: seq<Positive>, lo: real)
    requires forall i :: 0 <= i < |xs| ==> lo <= xs[i]
    ensures Times(lo, Reciprocals(xs)) <= |xs| as real
  {
    if xs != [] {
      ReciprocalBound(xs[1..], lo);
      BoundStep(lo, xs[0], Inverse(xs[0]), Reciprocals(xs[1..]), |xs[1..]| as real);
      assert |xs| as real == |xs[1..]| as real + 1.0;
    }
  }

  lemma {:induction false} TotalBound(xs: seq<Positive>, hi: real)
    requires forall i :: 0 <= i < |xs| ==> xs[i] <= hi
    ensures Total(xs) <= Times(hi, |xs| as real)
  {
    if xs != [] {
      TotalBound(xs[1..], hi);
      var m := |xs[1..]| as real;
      assert |xs| as real == 1.0 + m;
      assert hi * (1.0 + m) == hi + hi * m;
    }
  }

  lemma SquareBelowFour(s: real)
    requires s > 0.0
    ensures s < 2.0 ==> s * s < 4.0
  {
    ScaleUp(2.0, s, s);
  }

  lemma SquareNonNegative(x: real)
    ensures x * x >= 0.0
  {}

  lemma Distribute(y: real, s: real, i: real, x: real, j: real, r: real)
    ensures (y + s) * i + x * (j + r) == (y * i + x * j) + (s * i + x * r)
  {}

  lemma PairSum(x: Positive, y: Positive)
    ensures Times(y, Inverse(x)) + Times(x, Inverse(y)) >= 2.0
  {
    var i, j := Inverse(x), Inverse(y);
    var a, b := y * i, x * j;
    assert a * b == (x * i) * (y * j) == 1.0;
    assert (a + b) * (a + b) == (a - b) * (a - b) + 4.0 * (a * b);
    SquareNonNegative(a - b);
    SquareBelowFour(a + b);
  }

  lemma CrossStep(y: real, s: real, i: real, x: real, j: real, r: real, m: real)
    requires Times(y, i) + Times(x, j) >= 2.0 && Times(s, i) + Times(x, r) >= 2.0 * m
    ensures Times(y + s, i) + Times(x, j + r) >= 2.0 * (m + 1.0)
  {
    Distribute(y, s, i, x, j, r);
  }

  lemma {:induction false} CrossTerms(xs: seq<Positive>, x: Positive)
    ensures Times(Total(xs), Inverse(x)) + Times(x, Reciprocals(xs)) >= 2.0 * |xs| as real
  {
    if xs != [] {
      var y, rest := xs[0], xs[1..];
      CrossTerms(rest, x);
      PairSum(x, y);
      CrossStep(y, Total(rest), Inverse(x), x, Inverse(y), Reciprocals(rest), |rest| as real);
      assert |xs| as real == |rest| as real + 1.0;
    }
  }

  lemma SquareStep(x: real, i: real, s: real, r: real, m: real)
    requires x * i == 1.0 && Times(s, i) + Times(x, r) >= 2.0 * m && Times(s, r) >= Times(m, m)
    ensures Times(x + s, i + r) >= Times(m + 1.0, m + 1.0)
  {
    assert (x + s) * (i + r) == x * i + (s * i + x * r) + s * r;
    assert (m + 1.0) * (m + 1.0) == m * m + 2.0 * m + 1.0;
  }

  lemma {:induction false} TotalTimesReciprocals(xs: seq<Positive>)
    ensures Times(Total(xs), Reciprocals(xs)) >= Times(|xs| as real, |xs| as real)
  {
    if xs != [] {
      var x, rest := xs[0], xs[1..];
      TotalTimesReciprocals(rest);
      CrossTerms(rest, x);
      SquareStep(x, Inverse(x), Total(rest), Reciprocals(rest), |rest| as real);
      assert |xs| as real == |rest| as real + 1.0;
    }
  }

  /** The two means of n numbers with the given total and sum of reciprocals, ordered. */
  lemma MeansOrdered(n: real, r: real, lo: real, total: real, hi: real)
    requires n > 0.0 && r > 0.0 && Times(lo, r) <= n && Times(total, r) >= Times(n, n) && total <= Times(hi, n)
    ensures lo <= n / r <= total / n <= hi
  {
    var q, a := n / r, total / n;
    assert q * r == n && a * n == total;
    ScaleUp(lo, q, r);
    ScaleUp(a, hi, n);
    assert n * r > 0.0;
    assert q * (n * r) == n * (q * r) && a * (n * r) == (a * n) * r;
    ScaleUp(q, a, n * r);
  }

  lemma PositiveBounds(xs: seq<Positive>)
    requires xs != []
    ensures 0.0 < MinOf(xs) <= |xs| as real / Reciprocals(xs) <= Total(xs) / |xs| as real <= MaxOf(xs)
  {
    ReciprocalBound(xs, MinOf(xs));
    TotalTimesReciprocals(xs);
    TotalBound(xs, MaxOf(xs));
    MeansOrdered(|xs| as real, Reciprocals(xs), MinOf(xs), Total(xs), MaxOf(xs));
  }

  /** Zero exactly when no score is positive and finite; otherwise between the least of the
      positive scores and their arithmetic mean, itself at most the greatest. */
  lemma HarmonicMeanBounds(scores: seq<Score>)
    ensures HarmonicMean(scores) == 0.0 <==> forall s :: s in scores ==> !Counts(s)
    ensures var xs := Positives(scores); xs != [] ==>
      MinOf(xs) <= HarmonicMean(scores) <= Total(xs) / |xs| as real <= MaxOf(xs)
  {
    if Positives(scores) != [] {
      PositiveBounds(Positives(scores));
    }
  }

  // ----- what makes it the harmonic mean -----

  /** The scores that count are the finite ones above zero. */
  lemma {:induction false} PositivesIff(scores: seq<Score>)
    ensures forall x :: x in Positives(scores) <==> x > 0.0 && Finite(x) in scores
  {
    if scores != [] {
      PositivesIff(scores[1..]);
      assert scores == [scores[0]] + scores[1..];
    }
  }

  function SumOf(rs: seq<real>): real {
    if rs == [] then 0.0 else rs[0] + SumOf(rs[1..])
  }

  ghost predicate AreReciprocals(xs: seq<Positive>, rs: seq<real>) {
    |rs| == |xs| && forall i :: 0 <= i < |xs| ==> Times(xs[i], rs[i]) == 1.0
  }

  lemma ReciprocalUnique(x: Positive, r: real)
    requires Times(x, r) == 1.0
    ensures r == Inverse(x)
  {
    assert x * (r - Inverse(x)) == x * r - x * Inverse(x);
  }

  lemma {:induction false} SumOfReciprocals(xs: seq<Positive>, rs: seq<real>)
    requires AreReciprocals(xs, rs)
    ensures SumOf(rs) == Reciprocals(xs)
  {
    if xs != [] {
      ReciprocalUnique(xs[0], rs[0]);
      assert forall i :: 0 <= i < |xs[1..]| ==> xs[1..][i] == xs[i + 1] && rs[1..][i] == rs[i + 1];
      SumOfReciprocals(xs[1..], rs[1..]);
    }
  }

  lemma Undivide(n: real, s: real)
    requires s > 0.0
    ensures Times(n / s, s) == n
  {}

  /** Times the sum of the reciprocals of the counting scores it is their number. */
  lemma HarmonicMeanBalances(scores: seq<Score>, rs: seq<real>)
    requires Positives(scores) != [] && AreReciprocals(Positives(scores), rs)
    ensures Times(HarmonicMean(scores), SumOf(rs)) == |Positives(scores)| as real
  {
    SumOfReciprocals(Positives(scores), rs);
    Undivide(|Positives(scores)| as real, Reciprocals(Positives(scores)));
  }

  lemma OfTwo(x: real, y: real, i: real, j: real, h: real)
    requires Times(x, i) == 1.0 && Times(y, j) == 1.0 && Times(h, i + j) == 2.0
    ensures Times(h, x + y) == 2.0 * Times(x, y)
  {
    assert (i + j) * (x * y) == (x * i) * y + (y * j) * x;
    assert (h * (i + j)) * (x * y) == h * ((i + j) * (x * y));
  }

  lemma PositivesOfTwo(x: Positive, y: Positive)
    ensures Positives([Finite(x), Finite(y)]) == [x, y]
  {
    assert [Finite(x), Finite(y)][1..] == [Finite(y)] && [Finite(y)][1..] == [];
  }

  lemma SumOfTwo(i: real, j: real)
    ensures SumOf([i, j]) == i + j
  {
    assert [i, j][1..] == [j] && [j][1..] == [];
    assert SumOf([j]) == j + SumOf([]);
  }

  /** For two scores it is twice the product over the sum. */
  lemma HarmonicMeanOfTwo(x: Positive, y: Positive)
    ensures Times(HarmonicMean([Finite(x), Finite(y)]), x + y) == 2.0 * Times(x, y)
  {
    PositivesOfTwo(x, y);
    SumOfTwo(Inverse(x), Inverse(y));
    BothInverses(x, y);
    HarmonicMeanBalances([Finite(x), Finite(y)], [Inverse(x), Inverse(y)]);
    OfTwo(x, y, Inverse(x), Inverse(y), HarmonicMean([Finite(x), Finite(y)]));
  }

  lemma BothInverses(x: Positive, y: Positive)
    ensures Times(x, Inverse(x)) == 1.0 && Times(y, Inverse(y)) == 1.0
    ensures AreReciprocals([x, y], [Inverse(x), Inverse(y)])
  {}

  /** The weakest link caps it: at most the number of counting scores times any one of them. */
  lemma WeakestLinkCaps(scores: seq<Score>, i: nat)
    requires i < |Positives(scores)|
    ensures HarmonicMean(scores) <= Times(|Positives(scores)| as real, Positives(scores)[i])
  {
    OneReciprocal(Positives(scores), i);
    InverseTimes(Positives(scores)[i]);
    CapArithmetic(|Positives(scores)| as real, Reciprocals(Positives(scores)), Positives(scores)[i],
                  Inverse(Positives(scores)[i]));
  }

  lemma InverseTimes(x: Positive)
    ensures Times(x, Inverse(x)) == 1.0
  {}

  lemma {:induction false} OneReciprocal(xs: seq<Positive>, i: nat)
    requires i < |xs|
    ensures Inverse(xs[i]) <= Reciprocals(xs)
  {
    if i > 0 {
      OneReciprocal(xs[1..], i - 1);
    }
  }

  lemma CapArithmetic(n: real, r: real, x: real, inverse: real)
    requires n > 0.0 && r > 0.0 && x > 0.0 && Times(x, inverse) == 1.0 && inverse <= r
    ensures n / r <= Times(n, x)
  {
    ScaleUp(inverse, r, x);
    ScaleUp(1.0, r * x, n);
    assert n <= (n * x) * r;
    ScaleUp(n / r, n * x, r);
  }

  // ----- order and zeros do not matter -----

  lemma {:induction false} PositivesConcat(a: seq<Score>, b: seq<Score>)
    ensures Positives(a + b) == Positives(a) + Positives(b)
  {
    if a == [] {
      assert a + b == b;
    } else {
      assert (a + b)[1..] == a[1..] + b;
      PositivesConcat(a[1..], b);
      if Counts(a[0]) {
        Regroup([a[0].value], Positives(a[1..]), Positives(b));
      } else {
        assert Positives(a) == Positives(a[1..]) && Positives(a + b) == Positives(a[1..] + b);
      }
    }
  }

  lemma {:induction false} ReciprocalsConcat(xs: seq<Positive>, ys: seq<Positive>)
    ensures Reciprocals(xs + ys) == Reciprocals(xs) + Reciprocals(ys)
  {
    if xs == [] {
      assert xs + ys == ys;
    } else {
      assert (xs + ys)[1..] == xs[1..] + ys;
      ReciprocalsConcat(xs[1..], ys);
    }
  }

  function CountOf(scores: seq<Score>): nat { |Positives(scores)| }

  function ReciprocalsOf(scores: seq<Score>): real { Reciprocals(Positives(scores)) }

  lemma Additive(a: seq<Score>, b: seq<Score>)
    ensures CountOf(a + b) == CountOf(a) + CountOf(b)
    ensures ReciprocalsOf(a + b) == ReciprocalsOf(a) + ReciprocalsOf(b)
  {
    PositivesConcat(a, b);
    ReciprocalsConcat(Positives(a), Positives(b));
  }

  /** Taking one score out, from anywhere, takes out its own part. */
  lemma TakeOut(a: seq<Score>, s: Score, b: seq<Score>)
    ensures CountOf(a + ([s] + b)) == CountOf([s]) + CountOf(a + b)
    ensures ReciprocalsOf(a + ([s] + b)) == ReciprocalsOf([s]) + ReciprocalsOf(a + b)
  {
    Additive(a, [s] + b);
    Additive([s], b);
    Additive(a, b);
  }

  lemma FindFirst(xs: seq<Score>, ys: seq<Score>) returns (a: seq<Score>, b: seq<Score>)
    requires xs != [] && multiset(xs) == multiset(ys)
    ensures ys == a + ([xs[0]] + b) && multiset(a + b) == multiset(xs[1..])
  {
    assert xs[0] in multiset(ys);
    var i :| 0 <= i < |ys| && ys[i] == xs[0];
    a, b := ys[..i], ys[i + 1..];
    assert ys == a + ([xs[0]] + b);
    assert xs == [xs[0]] + xs[1..];
    assert multiset(ys) == multiset(a) + multiset([xs[0]] + b) == multiset{xs[0]} + multiset(a + b);
    assert multiset(a + b) == multiset(ys) - multiset{xs[0]};
    assert multiset(xs[1..]) == multiset(xs) - multiset{xs[0]};
  }

  lemma SameHead(s: Score, tail: seq<Score>, a: seq<Score>, b: seq<Score>)
    requires CountOf(tail) == CountOf(a + b) && ReciprocalsOf(tail) == ReciprocalsOf(a + b)
    ensures CountOf([s] + tail) == CountOf(a + ([s] + b)) && ReciprocalsOf([s] + tail) == ReciprocalsOf(a + ([s] + b))
  {
    Additive([s], tail);
    TakeOut(a, s, b);
  }

  lemma {:induction false} SameTotals(xs: seq<Score>, ys: seq<Score>)
    requires multiset(xs) == multiset(ys)
    ensures CountOf(xs) == CountOf(ys) && ReciprocalsOf(xs) == ReciprocalsOf(ys)
  {
    if xs == [] {
      assert |multiset(ys)| == 0;
    } else {
      var a, b := FindFirst(xs, ys);
      SameTotals(xs[1..], a + b);
      SameHead(xs[0], xs[1..], a, b);
      assert xs == [xs[0]] + xs[1..];
    }
  }

  /** The order of the scores is irrelevant. */
  lemma HarmonicMeanIgnoresOrder(xs: seq<Score>, ys: seq<Score>)
    requires multiset(xs) == multiset(ys)
    ensures HarmonicMean(xs) == HarmonicMean(ys)
  {
    SameTotals(xs, ys);
  }

  lemma PositivesSkip(a: seq<Score>, zero: Score, b: seq<Score>)
    requires !Counts(zero)
    ensures Positives(a + [zero] + b) == Positives(a + b)
  {
    PositivesConcat(a + [zero], b);
    PositivesConcat(a, [zero]);
    PositivesConcat(a, b);
    assert Positives([zero]) == [] && Positives(a) + [] == Positives(a);
  }

  /** So is a zero, negative or non-finite score, wherever it is inserted. */
  lemma HarmonicMeanIgnoresZeros(a: seq<Score>, zero: Score, b: seq<Score>)
    requires !Counts(zero)
    ensures HarmonicMean(a + [zero] + b) == HarmonicMean(a + b)
  {
    PositivesSkip(a, zero, b);
  }
}
