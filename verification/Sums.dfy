/** Sums of a function over a finite set. */
module Sums {
  ghost function Sum<T(!new)>(s: set<T>, f: T -> int): int {
    if s == {} then 0
    else
      var x :| x in s;
      f(x) + Sum(s - {x}, f)
  }

  lemma {:induction false} SumRemove<T(!new)>(s: set<T>, x: T, f: T -> int)
    requires x in s
    ensures Sum(s, f) == f(x) + Sum(s - {x}, f)
  {
    var y :| y in s && Sum(s, f) == f(y) + Sum(s - {y}, f);
    if y != x {
      SumRemove(s - {y}, x, f);
      SumRemove(s - {x}, y, f);
      assert s - {y} - {x} == s - {x} - {y};
    }
  }

  lemma {:induction false} SumSame<T(!new)>(s: set<T>, f: T -> int, g: T -> int)
    requires forall x :: x in s ==> f(x) == g(x)
    ensures Sum(s, f) == Sum(s, g)
  {
    if s != {} {
      var x :| x in s;
      SumRemove(s, x, f);
      SumRemove(s, x, g);
      SumSame(s - {x}, f, g);
    }
  }

  lemma {:induction false} SumUnion<T(!new)>(s: set<T>, u: set<T>, f: T -> int)
    requires s !! u
    ensures Sum(s + u, f) == Sum(s, f) + Sum(u, f)
  {
    if s == {} {
      assert s + u == u;
    } else {
      var x :| x in s;
      SumRemove(s, x, f);
      SumRemove(s + u, x, f);
      assert s + u - {x} == (s - {x}) + u;
      SumUnion(s - {x}, u, f);
    }
  }
}
