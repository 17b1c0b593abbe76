/**
 * 3x3 matrices over Laurent polynomials: the zero and identity matrices,
 * the matrix product (each cell a fold of three polynomial products over
 * the zero polynomial), cell-by-cell equality, and the laws the game
 * relies on.
 */
module Matrices {
  import opened FiniteSums
  import opened Polynomials

  /** Row-major 3x3 grid of polynomials; `m[i][j]` is row i, column j. */
  type Matrix = d: seq<seq<Polynomial>> | |d| == 3 && forall i | 0 <= i < 3 :: |d[i]| == 3
    witness [[Polynomial(map[]), Polynomial(map[]), Polynomial(map[])],
             [Polynomial(map[]), Polynomial(map[]), Polynomial(map[])],
             [Polynomial(map[]), Polynomial(map[]), Polynomial(map[])]]

  /** Every cell is canonical (no stored zero coefficients). */
  ghost predicate CanonicalMatrix(m: Matrix)
  {
    forall i, j | 0 <= i < 3 && 0 <= j < 3 :: Canonical(m[i][j])
  }

  /** The matrix whose cells are all the zero polynomial. */
  function ZeroMatrix(): (r: Matrix)
    ensures forall i, j | 0 <= i < 3 && 0 <= j < 3 :: r[i][j] == Zero()
    ensures CanonicalMatrix(r)
  {
    [[Zero(), Zero(), Zero()],
     [Zero(), Zero(), Zero()],
     [Zero(), Zero(), Zero()]]
  }

  /** The identity matrix: one on the diagonal, zero elsewhere. */
  function Identity(): (r: Matrix)
    ensures forall i, j | 0 <= i < 3 && 0 <= j < 3 :: r[i][j] == if i == j then One() else Zero()
    ensures CanonicalMatrix(r)
  {
    [[One(), Zero(), Zero()],
     [Zero(), One(), Zero()],
     [Zero(), Zero(), One()]]
  }

  /** The matrix m with cell (i, j) replaced by p. */
  function WithCell(m: Matrix, i: nat, j: nat, p: Polynomial): (r: Matrix)
    requires i < 3 && j < 3
    ensures r[i][j] == p
    ensures forall i', j' | 0 <= i' < 3 && 0 <= j' < 3 && (i', j') != (i, j) :: r[i'][j'] == m[i'][j']
  {
    m[i := m[i][j := p]]
  }

  /** Two matrices with the same cells are the same matrix. */
  lemma MatrixExt(a: Matrix, b: Matrix)
    requires forall i, j | 0 <= i < 3 && 0 <= j < 3 :: a[i][j] == b[i][j]
    ensures a == b
  {
    assert a[0] == b[0];
    assert a[1] == b[1];
    assert a[2] == b[2];
  }

  /** Canonical matrices with the same coefficients in every cell are equal. */
  lemma MatrixCoefExt(a: Matrix, b: Matrix)
    requires CanonicalMatrix(a) && CanonicalMatrix(b)
    requires forall i, j, e | 0 <= i < 3 && 0 <= j < 3 :: Coef(a[i][j], e) == Coef(b[i][j], e)
    ensures a == b
  {
    forall i, j | 0 <= i < 3 && 0 <= j < 3
      ensures a[i][j] == b[i][j]
    {
      CoefExt(a[i][j], b[i][j]);
    }
    MatrixExt(a, b);
  }

  /** Builds the identity the way the game does: the zero matrix with one written on each diagonal cell. */
  method BuildIdentity() returns (res: Matrix)
    ensures res == Identity()
  {
    res := ZeroMatrix();
    for i := 0 to 3
      invariant forall r, c | 0 <= r < 3 && 0 <= c < 3 :: res[r][c] == if r == c && r < i then One() else Zero()
    {
      res := WithCell(res, i, i, One());
    }
    MatrixExt(res, Identity());
  }

  // ---------------------------------------------------------------------------
  // Product
  // ---------------------------------------------------------------------------

  /** The running fold zero + a[i][0]*b[0][j] + ... + a[i][n-1]*b[n-1][j], summed left to right. */
  ghost function PartialCell(a: Matrix, b: Matrix, i: nat, j: nat, n: nat): Polynomial
    requires i < 3 && j < 3 && n <= 3
  {
    if n == 0 then Zero() else Sum(PartialCell(a, b, i, j, n - 1), Product(a[i][n - 1], b[n - 1][j]))
  }

  /** The matrix product: cell (i, j) is the full fold over k = 0, 1, 2. */
  ghost function MatProduct(a: Matrix, b: Matrix): (r: Matrix)
  {
    seq(3, i requires 0 <= i < 3 => seq(3, j requires 0 <= j < 3 => PartialCell(a, b, i, j, 3)))
  }

  /** Each product cell is canonical and its coefficients are the sum over k of the convolutions a[i][k] * b[k][j]. */
  lemma MatProductCoef(a: Matrix, b: Matrix, i: nat, j: nat, e: int)
    requires i < 3 && j < 3
    ensures Canonical(MatProduct(a, b)[i][j])
    ensures Coef(MatProduct(a, b)[i][j], e) == Conv(a[i][0], b[0][j], e) + Conv(a[i][1], b[1][j], e) + Conv(a[i][2], b[2][j], e)
  {
    var p0, p1, p2 := Product(a[i][0], b[0][j]), Product(a[i][1], b[1][j]), Product(a[i][2], b[2][j]);
    assert MatProduct(a, b)[i][j] == PartialCell(a, b, i, j, 3);
    assert PartialCell(a, b, i, j, 1) == Sum(Zero(), p0);
    assert PartialCell(a, b, i, j, 2) == Sum(PartialCell(a, b, i, j, 1), p1);
    assert PartialCell(a, b, i, j, 3) == Sum(PartialCell(a, b, i, j, 2), p2);
    ProductCoef(a[i][0], b[0][j], e);
    ProductCoef(a[i][1], b[1][j], e);
    ProductCoef(a[i][2], b[2][j], e);
  }

  /** A product of matrices is canonical. */
  lemma MatProductCanonical(a: Matrix, b: Matrix)
    ensures CanonicalMatrix(MatProduct(a, b))
  {
    forall i, j | 0 <= i < 3 && 0 <= j < 3
      ensures Canonical(MatProduct(a, b)[i][j])
    {
      MatProductCoef(a, b, i, j, 0);
    }
  }

  /** The product computed as the game does: each cell starts at zero and adds the three cell products in turn. */
  method MatMul(a: Matrix, b: Matrix) returns (res: Matrix)
    ensures res == MatProduct(a, b)
  {
    res := ZeroMatrix();
    for i := 0 to 3
      invariant forall r, c | 0 <= r < i && 0 <= c < 3 :: res[r][c] == MatProduct(a, b)[r][c]
    {
      for j := 0 to 3
        invariant forall r, c | 0 <= r < 3 && 0 <= c < 3 && (r < i || (r == i && c < j)) :: res[r][c] == MatProduct(a, b)[r][c]
      {
        var sum := Zero();
        for k := 0 to 3
          invariant sum == PartialCell(a, b, i, j, k)
        {
          var term := Mul(a[i][k], b[k][j]);
          sum := Add(sum, term);
        }
        res := WithCell(res, i, j, sum);
      }
    }
    MatrixExt(res, MatProduct(a, b));
  }

  /** Matrices are equal exactly when all nine cells hold identical exponent-to-coefficient maps. */
  function MatEq(a: Matrix, b: Matrix): (r: bool)
    ensures r <==> a == b
  {
    if forall i, j | 0 <= i < 3 && 0 <= j < 3 :: PolyEq(a[i][j], b[i][j]) then
      MatrixExt(a, b);
      true
    else
      false
  }

  // ---------------------------------------------------------------------------
  // Laws
  // ---------------------------------------------------------------------------

  /** Convolving with a cell of the identity on the left selects or kills the other factor. */
  lemma ConvIdentityLeft(i: nat, k: nat, x: Polynomial, e: int)
    requires i < 3 && k < 3
    ensures Conv(Identity()[i][k], x, e) == if i == k then Coef(x, e) else 0
  {
    if i == k {
      ConvLeftMonomial(One(), x, e, 0);
    } else {
      ConvLeftZero(Zero(), x, e);
    }
  }

  /** Convolving with a cell of the identity on the right selects or kills the other factor. */
  lemma ConvIdentityRight(x: Polynomial, k: nat, j: nat, e: int)
    requires k < 3 && j < 3
    ensures Conv(x, Identity()[k][j], e) == if k == j then Coef(x, e) else 0
  {
    if k == j {
      ConvRightMonomial(x, One(), e, 0);
    } else {
      ConvRightZero(x, Zero(), e);
    }
  }

  /** The identity is a left unit on canonical matrices. */
  lemma IdentityLeft(b: Matrix)
    requires CanonicalMatrix(b)
    ensures MatProduct(Identity(), b) == b
  {
    forall i, j, e | 0 <= i < 3 && 0 <= j < 3
      ensures Coef(MatProduct(Identity(), b)[i][j], e) == Coef(b[i][j], e)
    {
      MatProductCoef(Identity(), b, i, j, e);
      ConvIdentityLeft(i, 0, b[0][j], e);
      ConvIdentityLeft(i, 1, b[1][j], e);
      ConvIdentityLeft(i, 2, b[2][j], e);
    }
    MatProductCanonical(Identity(), b);
    MatrixCoefExt(MatProduct(Identity(), b), b);
  }

  /** The identity is a right unit on canonical matrices. */
  lemma IdentityRight(a: Matrix)
    requires CanonicalMatrix(a)
    ensures MatProduct(a, Identity()) == a
  {
    forall i, j, e | 0 <= i < 3 && 0 <= j < 3
      ensures Coef(MatProduct(a, Identity())[i][j], e) == Coef(a[i][j], e)
    {
      MatProductCoef(a, Identity(), i, j, e);
      ConvIdentityRight(a[i][0], 0, j, e);
      ConvIdentityRight(a[i][1], 1, j, e);
      ConvIdentityRight(a[i][2], 2, j, e);
    }
    MatProductCanonical(a, Identity());
    MatrixCoefExt(MatProduct(a, Identity()), a);
  }

  /** The zero matrix annihilates from the left. */
  lemma ZeroLeft(b: Matrix)
    ensures MatProduct(ZeroMatrix(), b) == ZeroMatrix()
  {
    forall i, j, e | 0 <= i < 3 && 0 <= j < 3
      ensures Coef(MatProduct(ZeroMatrix(), b)[i][j], e) == Coef(ZeroMatrix()[i][j], e)
    {
      MatProductCoef(ZeroMatrix(), b, i, j, e);
      ConvLeftZero(Zero(), b[0][j], e);
      ConvLeftZero(Zero(), b[1][j], e);
      ConvLeftZero(Zero(), b[2][j], e);
    }
    MatProductCanonical(ZeroMatrix(), b);
    MatrixCoefExt(MatProduct(ZeroMatrix(), b), ZeroMatrix());
  }

  /** The zero matrix annihilates from the right. */
  lemma ZeroRight(a: Matrix)
    ensures MatProduct(a, ZeroMatrix()) == ZeroMatrix()
  {
    forall i, j, e | 0 <= i < 3 && 0 <= j < 3
      ensures Coef(MatProduct(a, ZeroMatrix())[i][j], e) == Coef(ZeroMatrix()[i][j], e)
    {
      MatProductCoef(a, ZeroMatrix(), i, j, e);
      ConvRightZero(a[i][0], Zero(), e);
      ConvRightZero(a[i][1], Zero(), e);
      ConvRightZero(a[i][2], Zero(), e);
    }
    MatProductCanonical(a, ZeroMatrix());
    MatrixCoefExt(MatProduct(a, ZeroMatrix()), ZeroMatrix());
  }

  /** Every cell of column j of g has its exponents among t1, t2 and t3. */
  ghost predicate ColumnExponents(g: Matrix, j: nat, t1: int, t2: int, t3: int)
    requires j < 3
  {
    forall k | 0 <= k < 3 :: g[k][j].data.Keys <= {t1, t2, t3}
  }

  /** Contribution of m[i][k] * g[k][j] to coefficient e when g[k][j] has its exponents among t1, t2, t3. */
  function ColumnTerm(m: Matrix, g: Matrix, i: nat, k: nat, j: nat, e: int, t1: int, t2: int, t3: int): int
    requires i < 3 && k < 3 && j < 3
  {
    Coef(m[i][k], e - t1) * Coef(g[k][j], t1) + Coef(m[i][k], e - t2) * Coef(g[k][j], t2) + Coef(m[i][k], e - t3) * Coef(g[k][j], t3)
  }

  /** Coefficient e of cell (i, j) of m * g, given that column j of g is supported on t1, t2, t3. */
  function ColumnSum(m: Matrix, g: Matrix, i: nat, j: nat, e: int, t1: int, t2: int, t3: int): int
    requires i < 3 && j < 3
  {
    ColumnTerm(m, g, i, 0, j, e, t1, t2, t3) + ColumnTerm(m, g, i, 1, j, e, t1, t2, t3) + ColumnTerm(m, g, i, 2, j, e, t1, t2, t3)
  }

  /**
   * Right multiplication by a matrix whose column j is supported on three exponents,
   * coefficient by coefficient: a finite formula in the coefficients of the factors.
   */
  lemma RightMulColumn(m: Matrix, g: Matrix, i: nat, j: nat, e: int, t1: int, t2: int, t3: int)
    requires i < 3 && j < 3
    requires t1 != t2 && t1 != t3 && t2 != t3
    requires ColumnExponents(g, j, t1, t2, t3)
    ensures Coef(MatProduct(m, g)[i][j], e) == ColumnSum(m, g, i, j, e, t1, t2, t3)
  {
    MatProductCoef(m, g, i, j, e);
    ColumnConv(m, g, i, 0, j, e, t1, t2, t3);
    ColumnConv(m, g, i, 1, j, e, t1, t2, t3);
    ColumnConv(m, g, i, 2, j, e, t1, t2, t3);
  }

  /** One term of RightMulColumn: a single convolution against a cell supported on three exponents. */
  lemma ColumnConv(m: Matrix, g: Matrix, i: nat, k: nat, j: nat, e: int, t1: int, t2: int, t3: int)
    requires i < 3 && k < 3 && j < 3
    requires t1 != t2 && t1 != t3 && t2 != t3
    requires ColumnExponents(g, j, t1, t2, t3)
    ensures Conv(m[i][k], g[k][j], e) == ColumnTerm(m, g, i, k, j, e, t1, t2, t3)
  {
    ConvRightSmall(m[i][k], g[k][j], e, t1, t2, t3);
  }

  /** The nine cells in row-major order, the layout handed to the renderer. */
  function Flatten(m: Matrix): (r: seq<Polynomial>)
    ensures |r| == 9
    ensures forall k | 0 <= k < 9 :: r[k] == m[k / 3][k % 3]
  {
    m[0] + m[1] + m[2]
  }
}
