/**
 * The concrete sums and products the algebra module is exercised with,
 * proved for the model: polynomial addition with overlapping and cancelling
 * terms, products with a negative and with cancelling coefficients, and
 * the matrix products with the identity, with zero, and a non-trivial one.
 */
module AlgebraCases {
  import opened Polynomials
  import opened Matrices

  /** (t + 2t^2) + (-1 + t) = -1 + 2t + 2t^2: the coefficients of t add up. */
  lemma AddOverlapping()
    ensures Sum(Polynomial(map[1 := 1, 2 := 2]), Polynomial(map[0 := -1, 1 := 1]))
         == Polynomial(map[0 := -1, 1 := 2, 2 := 2])
  {
    CoefExt(Sum(Polynomial(map[1 := 1, 2 := 2]), Polynomial(map[0 := -1, 1 := 1])),
            Polynomial(map[0 := -1, 1 := 2, 2 := 2]));
  }

  /** (t + 2t^2) + (-1 - t) = -1 + 2t^2: the cancelled term is not stored. */
  lemma AddCancelling()
    ensures Sum(Polynomial(map[1 := 1, 2 := 2]), Polynomial(map[0 := -1, 1 := -1]))
         == Polynomial(map[0 := -1, 2 := 2])
  {
    CoefExt(Sum(Polynomial(map[1 := 1, 2 := 2]), Polynomial(map[0 := -1, 1 := -1])),
            Polynomial(map[0 := -1, 2 := 2]));
  }

  /** (t + 2t^2) * (-1) = -t - 2t^2. */
  lemma MulNegative()
    ensures Product(Polynomial(map[1 := 1, 2 := 2]), Polynomial(map[0 := -1]))
         == Polynomial(map[1 := -1, 2 := -2])
  {
    var a, b := Polynomial(map[1 := 1, 2 := 2]), Polynomial(map[0 := -1]);
    forall e
      ensures Coef(Product(a, b), e) == Coef(Polynomial(map[1 := -1, 2 := -2]), e)
    {
      ProductCoef(a, b, e);
      ConvRightMonomial(a, b, e, 0);
    }
    CoefExt(Product(a, b), Polynomial(map[1 := -1, 2 := -2]));
  }

  /** The coefficients of (2t^-2 + 2t^2)^2 as convolutions. */
  lemma ConvCancelling(a: Polynomial, e: int)
    requires a == Polynomial(map[-2 := 2, 2 := 2])
    ensures Conv(a, a, e) == Coef(Polynomial(map[-4 := 4, 0 := 8, 4 := 4]), e)
  {
    ConvRightSmall(a, a, e, -2, 0, 2);
  }

  /** (2t^-2 + 2t^2) * (2t^-2 + 2t^2) = 4t^-4 + 8 + 4t^4: the mixed terms meet at exponent 0. */
  lemma MulCancelling()
    ensures Product(Polynomial(map[-2 := 2, 2 := 2]), Polynomial(map[-2 := 2, 2 := 2]))
         == Polynomial(map[-4 := 4, 0 := 8, 4 := 4])
  {
    var a := Polynomial(map[-2 := 2, 2 := 2]);
    forall e
      ensures Coef(Product(a, a), e) == Coef(Polynomial(map[-4 := 4, 0 := 8, 4 := 4]), e)
    {
      ProductCoef(a, a, e);
      ConvCancelling(a, e);
    }
    CoefExt(Product(a, a), Polynomial(map[-4 := 4, 0 := 8, 4 := 4]));
  }

  /** The identity times itself is the identity. */
  lemma IdentitySquared()
    ensures MatProduct(Identity(), Identity()) == Identity()
  {
    IdentityLeft(Identity());
  }

  // The non-trivial example: only the upper-left 2x2 blocks differ from the identity.
  //   [ t,      1 + t ] [ -t         0 ]   [ 2t^3 + t^4        5 + 5t ]
  //   [ t^-1,   2t^2  ] [ t^2 + t^3  5 ] = [ -1 + 2t^4 + 2t^5  10t^2  ]

  function ExampleLeft(): Matrix
  {
    [[Polynomial(map[1 := 1]), Polynomial(map[0 := 1, 1 := 1]), Zero()],
     [Polynomial(map[-1 := 1]), Polynomial(map[2 := 2]), Zero()],
     [Zero(), Zero(), One()]]
  }

  function ExampleRight(): Matrix
  {
    [[Polynomial(map[1 := -1]), Zero(), Zero()],
     [Polynomial(map[2 := 1, 3 := 1]), Polynomial(map[0 := 5]), Zero()],
     [Zero(), Zero(), One()]]
  }

  function ExampleProduct(): Matrix
  {
    [[Polynomial(map[3 := 2, 4 := 1]), Polynomial(map[0 := 5, 1 := 5]), Zero()],
     [Polynomial(map[0 := -1, 4 := 2, 5 := 2]), Polynomial(map[2 := 10]), Zero()],
     [Zero(), Zero(), One()]]
  }

  /** Coefficient e of cell (i, j) of the example product, from the exponents of column j of the right factor. */
  lemma ExampleCoef(i: nat, j: nat, e: int)
    requires i < 3 && j < 3
    ensures Coef(MatProduct(ExampleLeft(), ExampleRight())[i][j], e) == Coef(ExampleProduct()[i][j], e)
  {
    // column 0 of the right factor is -t, t^2 + t^3, 0; columns 1 and 2 are constants
    var t1, t2, t3 := if j == 0 then 1 else -1, if j == 0 then 2 else 0, if j == 0 then 3 else 1;
    RightMulColumn(ExampleLeft(), ExampleRight(), i, j, e, t1, t2, t3);
    if i == 0 {
      ExampleRow0(j, e);
    } else if i == 1 {
      ExampleRow1(j, e);
    } else {
      ExampleRow2(j, e);
    }
  }

  /** Row 0 of the example product: 2t^3 + t^4, 5 + 5t, 0. */
  lemma ExampleRow0(j: nat, e: int)
    requires j < 3
    ensures ColumnSum(ExampleLeft(), ExampleRight(), 0, j, e, if j == 0 then 1 else -1, if j == 0 then 2 else 0, if j == 0 then 3 else 1)
         == Coef(ExampleProduct()[0][j], e)
  {
  }

  /** Row 1 of the example product: -1 + 2t^4 + 2t^5, 10t^2, 0. */
  lemma ExampleRow1(j: nat, e: int)
    requires j < 3
    ensures ColumnSum(ExampleLeft(), ExampleRight(), 1, j, e, if j == 0 then 1 else -1, if j == 0 then 2 else 0, if j == 0 then 3 else 1)
         == Coef(ExampleProduct()[1][j], e)
  {
    if j == 0 {
      ExampleCell10(e);
    } else if j == 1 {
      ExampleCell11(e);
    } else {
      ExampleCell12(e);
    }
  }

  /** Cell (1, 0): t^-1 * (-t) + 2t^2 * (t^2 + t^3) = -1 + 2t^4 + 2t^5. */
  lemma ExampleCell10(e: int)
    ensures ColumnSum(ExampleLeft(), ExampleRight(), 1, 0, e, 1, 2, 3) == Coef(ExampleProduct()[1][0], e)
  {
  }

  /** Cell (1, 1): 2t^2 * 5 = 10t^2. */
  lemma ExampleCell11(e: int)
    ensures ColumnSum(ExampleLeft(), ExampleRight(), 1, 1, e, -1, 0, 1) == Coef(ExampleProduct()[1][1], e)
  {
  }

  /** Cell (1, 2): nothing in row 1 meets the one in column 2. */
  lemma ExampleCell12(e: int)
    ensures ColumnSum(ExampleLeft(), ExampleRight(), 1, 2, e, -1, 0, 1) == Coef(ExampleProduct()[1][2], e)
  {
  }

  /** Row 2 of the example product: 0, 0, 1. */
  lemma ExampleRow2(j: nat, e: int)
    requires j < 3
    ensures ColumnSum(ExampleLeft(), ExampleRight(), 2, j, e, if j == 0 then 1 else -1, if j == 0 then 2 else 0, if j == 0 then 3 else 1)
         == Coef(ExampleProduct()[2][j], e)
  {
  }

  /** The worked 3x3 example multiplies out as stated. */
  lemma NonTrivialProduct()
    ensures MatProduct(ExampleLeft(), ExampleRight()) == ExampleProduct()
  {
    forall i, j, e | 0 <= i < 3 && 0 <= j < 3
      ensures Coef(MatProduct(ExampleLeft(), ExampleRight())[i][j], e) == Coef(ExampleProduct()[i][j], e)
    {
      ExampleCoef(i, j, e);
    }
    MatProductCanonical(ExampleLeft(), ExampleRight());
    MatrixCoefExt(MatProduct(ExampleLeft(), ExampleRight()), ExampleProduct());
  }
}
