/**
 * Sparse Laurent polynomials with integer coefficients: a map from exponent
 * (possibly negative) to coefficient. The canonical form stores no zero
 * coefficient; addition and multiplication always produce it.
 */
module Polynomials {
  import opened FiniteSums

  /** A Laurent polynomial in one variable q: exponent |-> coefficient. */
  datatype Polynomial = Polynomial(data: map<int, int>)

  /** The value stored under e, an absent exponent counting as 0 (what `entry(e).or_insert(0)` reads). */
  function Lookup(m: map<int, int>, e: int): int
  {
    if e in m then m[e] else 0
  }

  /** The coefficient of q^e in p. */
  function Coef(p: Polynomial, e: int): int
  {
    Lookup(p.data, e)
  }

  /** Canonical sparse form: no stored coefficient is zero. */
  ghost predicate Canonical(p: Polynomial)
  {
    forall e :: e in p.data ==> p.data[e] != 0
  }

  function Zero(): (r: Polynomial)
    ensures Canonical(r)
    ensures forall e :: Coef(r, e) == 0
  {
    Polynomial(map[])
  }

  function One(): (r: Polynomial)
    ensures Canonical(r)
    ensures Coef(r, 0) == 1
    ensures forall e :: e != 0 ==> Coef(r, e) == 0
  {
    Polynomial(map[0 := 1])
  }

  /** Equality compares the exponent/coefficient maps. */
  function PolyEq(a: Polynomial, b: Polynomial): (r: bool)
    ensures r <==> a == b
    ensures r ==> forall e :: Coef(a, e) == Coef(b, e)
  {
    a.data == b.data
  }

  /** Two canonical polynomials with the same coefficients are the same polynomial. */
  lemma CoefExt(p: Polynomial, q: Polynomial)
    requires Canonical(p) && Canonical(q)
    requires forall e :: Coef(p, e) == Coef(q, e)
    ensures p == q
  {
    assert p.data.Keys == q.data.Keys by {
      forall e | e in p.data ensures e in q.data {
        assert Coef(q, e) == Coef(p, e) != 0;
      }
      forall e | e in q.data ensures e in p.data {
        assert Coef(p, e) == Coef(q, e) != 0;
      }
    }
    forall e | e in p.data ensures p.data[e] == q.data[e] {
      assert Coef(p, e) == Coef(q, e);
    }
  }

  // ---------------------------------------------------------------------------
  // Addition
  // ---------------------------------------------------------------------------

  /** The sum, with exponents whose coefficients cancel dropped. */
  function Sum(a: Polynomial, b: Polynomial): (r: Polynomial)
    ensures Canonical(r)
    ensures forall e :: Coef(r, e) == Coef(a, e) + Coef(b, e)
  {
    Polynomial(map e | e in a.data.Keys + b.data.Keys && Coef(a, e) + Coef(b, e) != 0
                     :: Coef(a, e) + Coef(b, e))
  }

  /** Drops every zero coefficient (`retain(|_, v| *v != 0)`). */
  function Retain(m: map<int, int>): (r: Polynomial)
    ensures Canonical(r)
    ensures forall e :: Coef(r, e) == Lookup(m, e)
    ensures r.data.Keys <= m.Keys
  {
    Polynomial(map e | e in m && m[e] != 0 :: m[e])
  }

  /**
   * `&a + &b`: accumulate every term of a, then every term of b, into a fresh
   * map, and drop the zero coefficients.
   */
  method Add(a: Polynomial, b: Polynomial) returns (c: Polynomial)
    ensures c == Sum(a, b)
  {
    var acc: map<int, int> := map[];
    var rest := a.data.Keys;
    while rest != {}
      invariant rest <= a.data.Keys
      invariant acc.Keys == a.data.Keys - rest
      invariant forall e :: Lookup(acc, e) == if e in rest then 0 else Coef(a, e)
      decreases rest
    {
      Inhabited(rest);
      var e :| e in rest;
      acc := acc[e := Lookup(acc, e) + a.data[e]];
      rest := rest - {e};
    }
    rest := b.data.Keys;
    while rest != {}
      invariant rest <= b.data.Keys
      invariant acc.Keys == a.data.Keys + (b.data.Keys - rest)
      invariant forall e :: Lookup(acc, e) == Coef(a, e) + if e in rest then 0 else Coef(b, e)
      decreases rest
    {
      Inhabited(rest);
      var e :| e in rest;
      acc := acc[e := Lookup(acc, e) + b.data[e]];
      rest := rest - {e};
    }
    c := Retain(acc);
    CoefExt(c, Sum(a, b));
  }

  // ---------------------------------------------------------------------------
  // Multiplication
  // ---------------------------------------------------------------------------

  /** The term a_k * b_(e-k) contributed to the coefficient of q^e of a*b by the exponent k of a. */
  ghost function Term(a: Polynomial, b: Polynomial, e: int): int -> int
  {
    k => Coef(a, k) * Coef(b, e - k)
  }

  /** The part of the convolution contributed by the exponents in s. */
  ghost function PartialConv(s: set<int>, a: Polynomial, b: Polynomial, e: int): int
  {
    SumOver(s, Term(a, b, e))
  }

  /** The coefficient of q^e in a*b: the sum of a_e1 * b_e2 over e1 + e2 == e. */
  ghost function Conv(a: Polynomial, b: Polynomial, e: int): int
  {
    PartialConv(a.data.Keys, a, b, e)
  }

  /** Every exponent that a*b can have: e1 + e2 with e1 stored in a and e2 stored in b. */
  ghost function Exponents(a: Polynomial, b: Polynomial): set<int>
  {
    set i, j | i in a.data.Keys && j in b.data.Keys :: i + j
  }

  lemma ExponentsHave(a: Polynomial, b: Polynomial, i: int, j: int)
    requires i in a.data && j in b.data
    ensures i + j in Exponents(a, b)
  {
  }

  /** Outside Exponents(a, b) every term of the convolution vanishes. */
  lemma ConvOutside(a: Polynomial, b: Polynomial)
    ensures forall e :: e !in Exponents(a, b) ==> Conv(a, b, e) == 0
  {
    forall e | e !in Exponents(a, b)
      ensures Conv(a, b, e) == 0
    {
      forall k | k in a.data.Keys
        ensures Term(a, b, e)(k) == 0
      {
        if e - k in b.data {
          ExponentsHave(a, b, k, e - k);
        }
      }
      SumOverZero(a.data.Keys, Term(a, b, e));
    }
  }

  /** The product: coefficients are the convolution, exponents whose sum cancels are dropped. */
  ghost function Product(a: Polynomial, b: Polynomial): (r: Polynomial)
    ensures Canonical(r)
  {
    Polynomial(map e | e in Exponents(a, b) && Conv(a, b, e) != 0 :: Conv(a, b, e))
  }

  /** For every exponent e, the coefficient of q^e in a*b is the sum of a_e1 * b_e2 over e1 + e2 == e. */
  lemma ProductCoef(a: Polynomial, b: Polynomial, e: int)
    ensures Coef(Product(a, b), e) == Conv(a, b, e)
  {
    ConvOutside(a, b);
  }

  lemma ProductCoefs(a: Polynomial, b: Polynomial)
    ensures forall e :: Coef(Product(a, b), e) == Conv(a, b, e)
  {
    forall e ensures Coef(Product(a, b), e) == Conv(a, b, e) {
      ProductCoef(a, b, e);
    }
  }

  lemma PartialConvInsert(s: set<int>, a: Polynomial, b: Polynomial, k: int)
    requires k !in s
    ensures forall e :: PartialConv(s + {k}, a, b, e) == PartialConv(s, a, b, e) + Coef(a, k) * Coef(b, e - k)
  {
    forall e ensures PartialConv(s + {k}, a, b, e) == PartialConv(s, a, b, e) + Coef(a, k) * Coef(b, e - k) {
      SumOverInsert(s, Term(a, b, e), k);
    }
  }

  /**
   * `&a * &b`: for every pair of stored terms accumulate a_i * b_j under the
   * exponent i + j in a fresh map, then drop the zero coefficients.
   */
  method Mul(a: Polynomial, b: Polynomial) returns (c: Polynomial)
    ensures c == Product(a, b)
  {
    var acc: map<int, int> := map[];
    var restA := a.data.Keys;
    ghost var done: set<int> := {};
    while restA != {}
      invariant restA <= a.data.Keys && done == a.data.Keys - restA
      invariant forall e {:trigger PartialConv(done, a, b, e)} :: Lookup(acc, e) == PartialConv(done, a, b, e)
      decreases restA
    {
      Inhabited(restA);
      var i :| i in restA;
      ghost var before := acc;
      var restB := b.data.Keys;
      while restB != {}
        invariant restB <= b.data.Keys
        invariant forall e ::
          Lookup(acc, e) == Lookup(before, e) + (if e - i in b.data.Keys - restB then a.data[i] * b.data[e - i] else 0)
        decreases restB
      {
        Inhabited(restB);
        var j :| j in restB;
        acc := acc[i + j := Lookup(acc, i + j) + a.data[i] * b.data[j]];
        restB := restB - {j};
      }
      assert forall e :: Lookup(acc, e) == PartialConv(done + {i}, a, b, e) by {
        PartialConvInsert(done, a, b, i);
      }
      assert done + {i} == a.data.Keys - (restA - {i});
      restA, done := restA - {i}, done + {i};
    }
    assert done == a.data.Keys;
    c := Retain(acc);
    RetainConv(acc, a, b);
  }

  /** Dropping the zero entries of a map holding the whole convolution gives the product. */
  lemma RetainConv(acc: map<int, int>, a: Polynomial, b: Polynomial)
    requires forall e :: Lookup(acc, e) == Conv(a, b, e)
    ensures Retain(acc) == Product(a, b)
  {
    ProductCoefs(a, b);
    CoefExt(Retain(acc), Product(a, b));
  }

  // ---------------------------------------------------------------------------
  // The convolution of small polynomials, term by term
  // ---------------------------------------------------------------------------

  /** With no term on the left the convolution is empty. */
  lemma ConvLeftZero(a: Polynomial, b: Polynomial, e: int)
    requires a.data == map[]
    ensures Conv(a, b, e) == 0
  {
  }

  /** A monomial c*q^k on the left shifts and scales: coef(e) = c * b_(e-k). */
  lemma ConvLeftMonomial(a: Polynomial, b: Polynomial, e: int, k: int)
    requires a.data.Keys == {k}
    ensures Conv(a, b, e) == a.data[k] * Coef(b, e - k)
  {
    SumOverRemove(a.data.Keys, Term(a, b, e), k);
    assert a.data.Keys - {k} == {};
  }

  /** A monomial c*q^t on the right: coef(e) = a_(e-t) * c. */
  lemma ConvRightMonomial(a: Polynomial, b: Polynomial, e: int, t: int)
    requires b.data.Keys == {t}
    ensures Conv(a, b, e) == Coef(a, e - t) * b.data[t]
  {
    forall k | k in a.data.Keys && k != e - t
      ensures Term(a, b, e)(k) == 0
    {
      assert e - k !in b.data;
    }
    SumOverSingleSupport(a.data.Keys, Term(a, b, e), e - t);
  }

  /** The zero polynomial on the right annihilates every term. */
  lemma ConvRightZero(a: Polynomial, b: Polynomial, e: int)
    requires b.data == map[]
    ensures Conv(a, b, e) == 0
  {
    forall k | k in a.data.Keys
      ensures Term(a, b, e)(k) == 0
    {
      assert e - k !in b.data;
    }
    SumOverZero(a.data.Keys, Term(a, b, e));
  }

  /**
   * A right factor whose exponents lie among t1, t2, t3:
   * coef(e) = a_(e-t1) * b_t1 + a_(e-t2) * b_t2 + a_(e-t3) * b_t3.
   */
  lemma ConvRightSmall(a: Polynomial, b: Polynomial, e: int, t1: int, t2: int, t3: int)
    requires t1 != t2 && t1 != t3 && t2 != t3
    requires b.data.Keys <= {t1, t2, t3}
    ensures Conv(a, b, e) == Coef(a, e - t1) * Coef(b, t1) + Coef(a, e - t2) * Coef(b, t2) + Coef(a, e - t3) * Coef(b, t3)
  {
    SmallSum(a, b, e, t1, t2, t3);
  }

  /** The sum behind ConvRightSmall, over the exponents of a. */
  lemma SmallSum(a: Polynomial, b: Polynomial, e: int, t1: int, t2: int, t3: int)
    requires t1 != t2 && t1 != t3 && t2 != t3
    requires b.data.Keys <= {t1, t2, t3}
    ensures SumOver(a.data.Keys, Term(a, b, e)) == Coef(a, e - t1) * Coef(b, t1) + Coef(a, e - t2) * Coef(b, t2) + Coef(a, e - t3) * Coef(b, t3)
  {
    TermsSplit(a, b, e, t1, t2, t3);
    ConvFromSplit(a, Term(a, b, e), e - t1, Coef(b, t1), e - t2, Coef(b, t2), e - t3, Coef(b, t3));
  }

  /** TermSplit at every exponent of a. */
  lemma TermsSplit(a: Polynomial, b: Polynomial, e: int, t1: int, t2: int, t3: int)
    requires t1 != t2 && t1 != t3 && t2 != t3
    requires b.data.Keys <= {t1, t2, t3}
    ensures forall k | k in a.data.Keys ::
      Term(a, b, e)(k) == PickedPair(a, e - t1, Coef(b, t1), e - t2, Coef(b, t2))(k) + Picked(a, e - t3, Coef(b, t3))(k)
  {
    forall k | k in a.data.Keys
      ensures Term(a, b, e)(k) == PickedPair(a, e - t1, Coef(b, t1), e - t2, Coef(b, t2))(k) + Picked(a, e - t3, Coef(b, t3))(k)
    {
      TermSplit(a, b, e, t1, t2, t3, k);
    }
  }

  /** Terms that split among three picked families sum to the three picked terms. */
  lemma ConvFromSplit(a: Polynomial, h: int -> int, y1: int, c1: int, y2: int, c2: int, y3: int, c3: int)
    requires forall k | k in a.data.Keys :: h(k) == PickedPair(a, y1, c1, y2, c2)(k) + Picked(a, y3, c3)(k)
    ensures SumOver(a.data.Keys, h) == Coef(a, y1) * c1 + Coef(a, y2) * c2 + Coef(a, y3) * c3
  {
    var f1, f2, f3 := Picked(a, y1, c1), Picked(a, y2, c2), Picked(a, y3, c3);
    var f12 := PickedPair(a, y1, c1, y2, c2);
    forall k | k in a.data.Keys
      ensures f12(k) == f1(k) + f2(k)
    {
    }
    SumOverAdd(a.data.Keys, f12, f3, h);
    SumOverAdd(a.data.Keys, f1, f2, f12);
    PickedSum(a, y1, c1);
    PickedSum(a, y2, c2);
    PickedSum(a, y3, c3);
  }

  /** The terms a_k * c at k == y and zero elsewhere. */
  ghost function Picked(a: Polynomial, y: int, c: int): int -> int
  {
    k => Coef(a, k) * (if k == y then c else 0)
  }

  /** The sum of two picked families of terms. */
  ghost function PickedPair(a: Polynomial, y1: int, c1: int, y2: int, c2: int): int -> int
  {
    k => Picked(a, y1, c1)(k) + Picked(a, y2, c2)(k)
  }

  /** With the exponents of b among t1, t2, t3, each term of the convolution is picked by exactly one of them. */
  lemma TermSplit(a: Polynomial, b: Polynomial, e: int, t1: int, t2: int, t3: int, k: int)
    requires t1 != t2 && t1 != t3 && t2 != t3
    requires b.data.Keys <= {t1, t2, t3}
    ensures Term(a, b, e)(k)
         == PickedPair(a, e - t1, Coef(b, t1), e - t2, Coef(b, t2))(k) + Picked(a, e - t3, Coef(b, t3))(k)
  {
    var p1, p2, p3 := Picked(a, e - t1, Coef(b, t1))(k), Picked(a, e - t2, Coef(b, t2))(k), Picked(a, e - t3, Coef(b, t3))(k);
    assert PickedPair(a, e - t1, Coef(b, t1), e - t2, Coef(b, t2))(k) == p1 + p2;
    if e - k == t1 {
      assert p2 == 0 && p3 == 0;
    } else if e - k == t2 {
      assert p1 == 0 && p3 == 0;
    } else if e - k == t3 {
      assert p1 == 0 && p2 == 0;
    } else {
      assert e - k !in b.data;
      assert p1 == 0 && p2 == 0 && p3 == 0;
    }
  }

  /** Summing the picked terms over the exponents of a leaves a_y * c. */
  lemma PickedSum(a: Polynomial, y: int, c: int)
    ensures SumOver(a.data.Keys, Picked(a, y, c)) == Coef(a, y) * c
  {
    SumOverSingleSupport(a.data.Keys, Picked(a, y, c), y);
  }

  // ---------------------------------------------------------------------------
  // Ring laws
  // ---------------------------------------------------------------------------

  lemma SumCommutes(a: Polynomial, b: Polynomial)
    ensures Sum(a, b) == Sum(b, a)
  {
    CoefExt(Sum(a, b), Sum(b, a));
  }

  lemma SumAssociates(a: Polynomial, b: Polynomial, c: Polynomial)
    ensures Sum(Sum(a, b), c) == Sum(a, Sum(b, c))
  {
    CoefExt(Sum(Sum(a, b), c), Sum(a, Sum(b, c)));
  }

  /** Adding zero on either side gives back a canonical polynomial unchanged. */
  lemma SumZero(p: Polynomial)
    requires Canonical(p)
    ensures Sum(p, Zero()) == p && Sum(Zero(), p) == p
  {
    CoefExt(Sum(p, Zero()), p);
    CoefExt(Sum(Zero(), p), p);
  }

  /** Multiplying by one on either side gives back a canonical polynomial unchanged. */
  lemma ProductOne(p: Polynomial)
    requires Canonical(p)
    ensures Product(p, One()) == p && Product(One(), p) == p
  {
    forall e ensures Coef(Product(p, One()), e) == Coef(p, e) && Coef(Product(One(), p), e) == Coef(p, e) {
      ConvRightMonomial(p, One(), e, 0);
      ConvLeftMonomial(One(), p, e, 0);
      ProductCoef(p, One(), e);
      ProductCoef(One(), p, e);
    }
    CoefExt(Product(p, One()), p);
    CoefExt(Product(One(), p), p);
  }

  /** Multiplying by zero on either side gives zero, whatever the other factor. */
  lemma ProductZero(p: Polynomial)
    ensures Product(Zero(), p) == Zero() && Product(p, Zero()) == Zero()
  {
    forall e ensures Coef(Product(Zero(), p), e) == 0 && Coef(Product(p, Zero()), e) == 0 {
      ConvRightZero(p, Zero(), e);
      ProductCoef(p, Zero(), e);
      ProductCoef(Zero(), p, e);
    }
    CoefExt(Product(Zero(), p), Zero());
    CoefExt(Product(p, Zero()), Zero());
  }

  lemma ConvSumRight(a: Polynomial, b: Polynomial, c: Polynomial, e: int)
    ensures Conv(a, Sum(b, c), e) == Conv(a, b, e) + Conv(a, c, e)
  {
    var s := Sum(b, c);
    forall k | k in a.data.Keys
      ensures Term(a, s, e)(k) == Term(a, b, e)(k) + Term(a, c, e)(k)
    {
      assert Coef(s, e - k) == Coef(b, e - k) + Coef(c, e - k);
    }
    SumOverAdd(a.data.Keys, Term(a, b, e), Term(a, c, e), Term(a, s, e));
  }

  lemma ConvSumLeft(a: Polynomial, b: Polynomial, c: Polynomial, e: int)
    ensures Conv(Sum(a, b), c, e) == Conv(a, c, e) + Conv(b, c, e)
  {
    var s := Sum(a, b);
    var u := a.data.Keys + b.data.Keys;
    forall k | k in u
      ensures Term(s, c, e)(k) == Term(a, c, e)(k) + Term(b, c, e)(k)
    {
      assert Coef(s, k) == Coef(a, k) + Coef(b, k);
    }
    forall k | k in u && k !in s.data.Keys
      ensures Term(s, c, e)(k) == 0
    {
      assert Coef(s, k) == 0;
    }
    forall k | k in u && k !in a.data.Keys
      ensures Term(a, c, e)(k) == 0
    {
      assert Coef(a, k) == 0;
    }
    forall k | k in u && k !in b.data.Keys
      ensures Term(b, c, e)(k) == 0
    {
      assert Coef(b, k) == 0;
    }
    SumOverSuperset(s.data.Keys, u, Term(s, c, e));
    SumOverAdd(u, Term(a, c, e), Term(b, c, e), Term(s, c, e));
    SumOverSuperset(a.data.Keys, u, Term(a, c, e));
    SumOverSuperset(b.data.Keys, u, Term(b, c, e));
  }

  lemma DistributesLeftAt(a: Polynomial, b: Polynomial, c: Polynomial, e: int)
    ensures Coef(Product(a, Sum(b, c)), e) == Coef(Sum(Product(a, b), Product(a, c)), e)
  {
    ConvSumRight(a, b, c, e);
    ProductCoef(a, Sum(b, c), e);
    ProductCoef(a, b, e);
    ProductCoef(a, c, e);
  }

  lemma DistributesRightAt(a: Polynomial, b: Polynomial, c: Polynomial, e: int)
    ensures Coef(Product(Sum(a, b), c), e) == Coef(Sum(Product(a, c), Product(b, c)), e)
  {
    ConvSumLeft(a, b, c, e);
    ProductCoef(Sum(a, b), c, e);
    ProductCoef(a, c, e);
    ProductCoef(b, c, e);
  }

  /** a * (b + c) == a*b + a*c */
  lemma ProductDistributesLeft(a: Polynomial, b: Polynomial, c: Polynomial)
    ensures Product(a, Sum(b, c)) == Sum(Product(a, b), Product(a, c))
  {
    forall e ensures Coef(Product(a, Sum(b, c)), e) == Coef(Sum(Product(a, b), Product(a, c)), e) {
      DistributesLeftAt(a, b, c, e);
    }
    CoefExt(Product(a, Sum(b, c)), Sum(Product(a, b), Product(a, c)));
  }

  /** (a + b) * c == a*c + b*c */
  lemma ProductDistributesRight(a: Polynomial, b: Polynomial, c: Polynomial)
    ensures Product(Sum(a, b), c) == Sum(Product(a, c), Product(b, c))
  {
    forall e ensures Coef(Product(Sum(a, b), c), e) == Coef(Sum(Product(a, c), Product(b, c)), e) {
      DistributesRightAt(a, b, c, e);
    }
    CoefExt(Product(Sum(a, b), c), Sum(Product(a, c), Product(b, c)));
  }
}
