/**
 * Finite sums of integer-valued terms over finite sets of exponents.
 * The coefficient of a polynomial product is such a sum (a convolution);
 * the lemmas here are what the polynomial proofs need about it.
 */
module FiniteSums {

  /** A set that is not empty has an element. */
  lemma Inhabited(s: set<int>)
    requires s != {}
    ensures exists x :: x in s
  {
    if forall x :: x !in s {
      assert false;
    }
  }

  /** The sum of f(x) over every x in s; the order of summation is immaterial (see SumOverRemove). */
  ghost function SumOver(s: set<int>, f: int -> int): int
    decreases s
  {
    if s == {} then 0
    else
      var x := Pick(s);
      f(x) + SumOver(s - {x}, f)
  }

  /** Some element of a non-empty set. */
  ghost function Pick(s: set<int>): (x: int)
    requires s != {}
    ensures x in s
  {
    Inhabited(s);
    var x :| x in s;
    x
  }

  /** Any element may be split off first: the sum does not depend on the choice made by SumOver. */
  lemma {:induction false} SumOverRemove(s: set<int>, f: int -> int, y: int)
    requires y in s
    ensures SumOver(s, f) == f(y) + SumOver(s - {y}, f)
    decreases s
  {
    var x :| x in s && SumOver(s, f) == f(x) + SumOver(s - {x}, f);
    if x != y {
      SumOverRemove(s - {x}, f, y);
      SumOverRemove(s - {y}, f, x);
      assert s - {x} - {y} == s - {y} - {x};
    }
  }

  /** Adding one fresh element adds its term. */
  lemma SumOverInsert(s: set<int>, f: int -> int, y: int)
    requires y !in s
    ensures SumOver(s + {y}, f) == SumOver(s, f) + f(y)
  {
    SumOverRemove(s + {y}, f, y);
    assert s + {y} - {y} == s;
  }

  /** A sum of zero terms is zero. */
  lemma {:induction false} SumOverZero(s: set<int>, f: int -> int)
    requires forall x :: x in s ==> f(x) == 0
    ensures SumOver(s, f) == 0
    decreases s
  {
    if s != {} {
      Inhabited(s);
      var x :| x in s;
      SumOverRemove(s, f, x);
      SumOverZero(s - {x}, f);
    }
  }

  /** When at most one term can be non-zero, the sum is that term. */
  lemma SumOverSingleSupport(s: set<int>, f: int -> int, y: int)
    requires forall x :: x in s && x != y ==> f(x) == 0
    ensures SumOver(s, f) == if y in s then f(y) else 0
  {
    if y in s {
      SumOverRemove(s, f, y);
      SumOverZero(s - {y}, f);
    } else {
      SumOverZero(s, f);
    }
  }

  /** Summation is additive in the terms. */
  lemma {:induction false} SumOverAdd(s: set<int>, f: int -> int, g: int -> int, h: int -> int)
    requires forall x :: x in s ==> h(x) == f(x) + g(x)
    ensures SumOver(s, h) == SumOver(s, f) + SumOver(s, g)
    decreases s
  {
    if s != {} {
      Inhabited(s);
      var x :| x in s;
      SumOverRemove(s, f, x);
      SumOverRemove(s, g, x);
      SumOverRemove(s, h, x);
      SumOverAdd(s - {x}, f, g, h);
    }
  }

  /** Enlarging the index set by elements whose terms are zero does not change the sum. */
  lemma {:induction false} SumOverSuperset(s: set<int>, t: set<int>, f: int -> int)
    requires s <= t
    requires forall x :: x in t && x !in s ==> f(x) == 0
    ensures SumOver(t, f) == SumOver(s, f)
    decreases t
  {
    if t - s == {} {
      forall x | x in t
        ensures x in s
      {
        assert x !in t - s;
      }
      assert t == s;
    } else {
      Inhabited(t - s);
      var x :| x in t - s;
      SumOverRemove(t, f, x);
      SumOverSuperset(s, t - {x}, f);
    }
  }
}
