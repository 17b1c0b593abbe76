/**
 * The four generator matrices and the group element that moves build up.
 * A group starts at the identity; each push right-multiplies the current
 * matrix by the generator of the chosen direction. North and South, and
 * East and West, are mutually inverse generators.
 */
module Groups {
  import opened Polynomials
  import opened Matrices

  /** The four moves. */
  datatype Direction = North | South | East | West

  /** The move that undoes d: North and South undo each other, and so do East and West. */
  function Inverse(d: Direction): (r: Direction)
    ensures r != d
  {
    match d
    case North => South
    case South => North
    case East => West
    case West => East
  }

  /** Undoing an undo gives back the original move. */
  lemma InverseInvolutive(d: Direction)
    ensures Inverse(Inverse(d)) == d
  {
  }

  // ---------------------------------------------------------------------------
  // The generators, as literal matrices. North and South start from the zero
  // matrix and East and West from the identity; the listed cells are overwritten.
  // ---------------------------------------------------------------------------

  function NorthMatrix(): Matrix
  {
    [[Zero(), Zero(), Polynomial(map[-1 := -1])],
     [Zero(), Polynomial(map[1 := -1]), Polynomial(map[-1 := -1, 1 := 1])],
     [Polynomial(map[0 := -1]), Zero(), Polynomial(map[-1 := -1, 0 := 1])]]
  }

  function SouthMatrix(): Matrix
  {
    [[Polynomial(map[0 := 1, 1 := -1]), Zero(), Polynomial(map[0 := -1])],
     [Polynomial(map[-1 := 1, 1 := -1]), Polynomial(map[-1 := -1]), Zero()],
     [Polynomial(map[1 := -1]), Zero(), Zero()]]
  }

  function EastMatrix(): Matrix
  {
    [[Polynomial(map[-1 := -1]), One(), Zero()],
     [Zero(), One(), Zero()],
     [Zero(), One(), Polynomial(map[1 := -1])]]
  }

  function WestMatrix(): Matrix
  {
    [[Polynomial(map[1 := -1]), Polynomial(map[1 := 1]), Zero()],
     [Zero(), One(), Zero()],
     [Zero(), Polynomial(map[-1 := 1]), Polynomial(map[-1 := -1])]]
  }

  /** The generator a move multiplies by. */
  function GeneratorMatrix(d: Direction): Matrix
  {
    match d
    case North => NorthMatrix()
    case South => SouthMatrix()
    case East => EastMatrix()
    case West => WestMatrix()
  }

  /** Every generator cell is canonical and uses only the exponents -1, 0 and 1. */
  lemma GeneratorShape(d: Direction)
    ensures CanonicalMatrix(GeneratorMatrix(d))
    ensures forall j | 0 <= j < 3 :: ColumnExponents(GeneratorMatrix(d), j, -1, 0, 1)
  {
  }

  /** No generator is the identity: in particular one North move leaves the start. */
  lemma GeneratorIsNotIdentity(d: Direction)
    ensures GeneratorMatrix(d) != Identity()
  {
    if d == North || d == South {
      assert GeneratorMatrix(d)[1][1] != One();
    } else {
      assert GeneratorMatrix(d)[0][0] != One();
    }
  }

  // ---------------------------------------------------------------------------
  // Right multiplication by a generator, coefficient by coefficient.
  // ---------------------------------------------------------------------------

  /**
   * Coefficient e of cell (i, j) of m * GeneratorMatrix(d), in closed form: each generator
   * mixes the three cells of row i of m and shifts their exponents by at most one.
   */
  function RightMulCoef(d: Direction, m: Matrix, i: nat, j: nat, e: int): int
    requires i < 3 && j < 3
  {
    var m0, m1, m2 := m[i][0], m[i][1], m[i][2];
    match d
    case North =>
      if j == 0 then -Coef(m2, e)
      else if j == 1 then -Coef(m1, e - 1)
      else -Coef(m0, e + 1) - Coef(m1, e + 1) + Coef(m1, e - 1) - Coef(m2, e + 1) + Coef(m2, e)
    case South =>
      if j == 0 then Coef(m0, e) - Coef(m0, e - 1) + Coef(m1, e + 1) - Coef(m1, e - 1) - Coef(m2, e - 1)
      else if j == 1 then -Coef(m1, e + 1)
      else -Coef(m0, e)
    case East =>
      if j == 0 then -Coef(m0, e + 1)
      else if j == 1 then Coef(m0, e) + Coef(m1, e) + Coef(m2, e)
      else -Coef(m2, e - 1)
    case West =>
      if j == 0 then -Coef(m0, e - 1)
      else if j == 1 then Coef(m0, e - 1) + Coef(m1, e) + Coef(m2, e + 1)
      else -Coef(m2, e + 1)
  }

  /** The closed form agrees with the general column formula for North. */
  lemma NorthColumns(m: Matrix, i: nat, j: nat, e: int)
    requires i < 3 && j < 3
    ensures ColumnSum(m, NorthMatrix(), i, j, e, -1, 0, 1) == RightMulCoef(North, m, i, j, e)
  {
  }

  /** The closed form agrees with the general column formula for South. */
  lemma SouthColumns(m: Matrix, i: nat, j: nat, e: int)
    requires i < 3 && j < 3
    ensures ColumnSum(m, SouthMatrix(), i, j, e, -1, 0, 1) == RightMulCoef(South, m, i, j, e)
  {
  }

  /** The closed form agrees with the general column formula for East. */
  lemma EastColumns(m: Matrix, i: nat, j: nat, e: int)
    requires i < 3 && j < 3
    ensures ColumnSum(m, EastMatrix(), i, j, e, -1, 0, 1) == RightMulCoef(East, m, i, j, e)
  {
  }

  /** The closed form agrees with the general column formula for West. */
  lemma WestColumns(m: Matrix, i: nat, j: nat, e: int)
    requires i < 3 && j < 3
    ensures ColumnSum(m, WestMatrix(), i, j, e, -1, 0, 1) == RightMulCoef(West, m, i, j, e)
  {
  }

  /** What one move does to the coefficients of the current matrix. */
  lemma RightMulGenerator(m: Matrix, d: Direction, i: nat, j: nat, e: int)
    requires i < 3 && j < 3
    ensures Coef(MatProduct(m, GeneratorMatrix(d))[i][j], e) == RightMulCoef(d, m, i, j, e)
  {
    GeneratorShape(d);
    RightMulColumn(m, GeneratorMatrix(d), i, j, e, -1, 0, 1);
    match d
    case North => NorthColumns(m, i, j, e);
    case South => SouthColumns(m, i, j, e);
    case East => EastColumns(m, i, j, e);
    case West => WestColumns(m, i, j, e);
  }

  /** If row i of n is row i of m moved by d, then moving n by Inverse(d) gives back row i of m. */
  lemma InverseFormula(d: Direction, m: Matrix, n: Matrix, i: nat, j: nat, e: int)
    requires i < 3 && j < 3
    requires forall k, f | 0 <= k < 3 :: Coef(n[i][k], f) == RightMulCoef(d, m, i, k, f)
    ensures RightMulCoef(Inverse(d), n, i, j, e) == Coef(m[i][j], e)
  {
  }

  /** One coefficient of m * G(d) * G(Inverse(d)) equals the same coefficient of m. */
  lemma InverseCancelsCoef(m: Matrix, d: Direction, i: nat, j: nat, e: int)
    requires i < 3 && j < 3
    ensures Coef(MatProduct(MatProduct(m, GeneratorMatrix(d)), GeneratorMatrix(Inverse(d)))[i][j], e) == Coef(m[i][j], e)
  {
    var once := MatProduct(m, GeneratorMatrix(d));
    RightMulGenerator(once, Inverse(d), i, j, e);
    forall k, f | 0 <= k < 3
      ensures Coef(once[i][k], f) == RightMulCoef(d, m, i, k, f)
    {
      RightMulGenerator(m, d, i, k, f);
    }
    InverseFormula(d, m, once, i, j, e);
  }

  /** A move followed by its inverse leaves any canonical matrix unchanged. */
  lemma PushInverseCancels(m: Matrix, d: Direction)
    requires CanonicalMatrix(m)
    ensures MatProduct(MatProduct(m, GeneratorMatrix(d)), GeneratorMatrix(Inverse(d))) == m
  {
    var r := MatProduct(MatProduct(m, GeneratorMatrix(d)), GeneratorMatrix(Inverse(d)));
    forall i, j, e | 0 <= i < 3 && 0 <= j < 3
      ensures Coef(r[i][j], e) == Coef(m[i][j], e)
    {
      InverseCancelsCoef(m, d, i, j, e);
    }
    MatProductCanonical(MatProduct(m, GeneratorMatrix(d)), GeneratorMatrix(Inverse(d)));
    MatrixCoefExt(r, m);
  }

  /** The defining relations: N * S = S * N = E * W = W * E = I. */
  lemma GeneratorRelations(d: Direction)
    ensures MatProduct(GeneratorMatrix(d), GeneratorMatrix(Inverse(d))) == Identity()
  {
    PushInverseCancels(Identity(), d);
    IdentityLeft(GeneratorMatrix(d));
    GeneratorShape(d);
  }

  // ---------------------------------------------------------------------------
  // Building the generators cell by cell
  // ---------------------------------------------------------------------------

  /** North: the zero matrix with five cells overwritten. */
  method BuildNorth() returns (n: Matrix)
    ensures n == NorthMatrix()
  {
    n := ZeroMatrix();
    n := WithCell(n, 0, 2, Polynomial(map[-1 := -1]));
    n := WithCell(n, 1, 1, Polynomial(map[1 := -1]));
    n := WithCell(n, 1, 2, Polynomial(map[-1 := -1, 1 := 1]));
    n := WithCell(n, 2, 0, Polynomial(map[0 := -1]));
    n := WithCell(n, 2, 2, Polynomial(map[-1 := -1, 0 := 1]));
    MatrixExt(n, NorthMatrix());
  }

  /** South: the zero matrix with five cells overwritten. */
  method BuildSouth() returns (s: Matrix)
    ensures s == SouthMatrix()
  {
    s := ZeroMatrix();
    s := WithCell(s, 0, 0, Polynomial(map[0 := 1, 1 := -1]));
    s := WithCell(s, 0, 2, Polynomial(map[0 := -1]));
    s := WithCell(s, 1, 0, Polynomial(map[-1 := 1, 1 := -1]));
    s := WithCell(s, 1, 1, Polynomial(map[-1 := -1]));
    s := WithCell(s, 2, 0, Polynomial(map[1 := -1]));
    MatrixExt(s, SouthMatrix());
  }

  /** East: the identity with four cells overwritten. */
  method BuildEast() returns (ea: Matrix)
    ensures ea == EastMatrix()
  {
    ea := BuildIdentity();
    ea := WithCell(ea, 0, 0, Polynomial(map[-1 := -1]));
    ea := WithCell(ea, 0, 1, One());
    ea := WithCell(ea, 2, 1, One());
    ea := WithCell(ea, 2, 2, Polynomial(map[1 := -1]));
    MatrixExt(ea, EastMatrix());
  }

  /** West: the identity with four cells overwritten. */
  method BuildWest() returns (w: Matrix)
    ensures w == WestMatrix()
  {
    w := BuildIdentity();
    w := WithCell(w, 0, 0, Polynomial(map[1 := -1]));
    w := WithCell(w, 0, 1, Polynomial(map[1 := 1]));
    w := WithCell(w, 2, 1, Polynomial(map[-1 := 1]));
    w := WithCell(w, 2, 2, Polynomial(map[-1 := -1]));
    MatrixExt(w, WestMatrix());
  }

  // ---------------------------------------------------------------------------
  // The group element
  // ---------------------------------------------------------------------------

  /** The generators of the four moves and the product of the moves made so far. */
  class Group {
    var north: Matrix
    var south: Matrix
    var east: Matrix
    var west: Matrix
    var current: Matrix

    /** The generators are the fixed matrices above and the current product is canonical. */
    ghost predicate Valid()
      reads this
    {
      north == NorthMatrix() && south == SouthMatrix() && east == EastMatrix() && west == WestMatrix()
      && CanonicalMatrix(current)
    }

    /** The generator this group multiplies by for move d. */
    function Generator(d: Direction): (g: Matrix)
      reads this
      requires Valid()
      ensures g == GeneratorMatrix(d)
    {
      match d
      case North => north
      case South => south
      case East => east
      case West => west
    }

    /** Builds the four generators and starts the product at the identity. */
    constructor ()
      ensures Valid()
      ensures current == Identity()
    {
      var n := BuildNorth();
      var s := BuildSouth();
      var ea := BuildEast();
      var w := BuildWest();
      var c := BuildIdentity();
      north, south, east, west, current := n, s, ea, w, c;
    }

    /** The current product is the identity matrix (compared symbolically, cell by cell). */
    function CurrentIsIdentity(): (r: bool)
      reads this
      ensures r <==> current == Identity()
    {
      MatEq(current, Identity())
    }

    /** Right-multiplies the current product by the generator of d; the generators are left alone. */
    method Push(d: Direction)
      requires Valid()
      modifies this
      ensures Valid()
      ensures current == MatProduct(old(current), GeneratorMatrix(d))
      ensures north == old(north) && south == old(south) && east == old(east) && west == old(west)
    {
      var g := Generator(d);
      current := MatMul(current, g);
      MatProductCanonical(old(current), g);
    }
  }

  /** One North move from the identity gives the North generator, which is not the identity. */
  lemma NorthFromIdentity()
    ensures MatProduct(Identity(), NorthMatrix()) == NorthMatrix()
    ensures NorthMatrix() != Identity()
  {
    GeneratorShape(North);
    IdentityLeft(NorthMatrix());
    GeneratorIsNotIdentity(North);
  }

  /** A fresh group pushed North holds the North generator. */
  method PushNorthFromFresh() returns (g: Group)
    ensures g.Valid()
    ensures g.current == NorthMatrix()
    ensures g.current != Identity()
  {
    g := new Group();
    g.Push(North);
    NorthFromIdentity();
  }

  /** From a fresh group, a move followed by its inverse returns to the identity. */
  method PushThenInverseFromFresh(d: Direction) returns (g: Group)
    ensures g.Valid()
    ensures g.current == Identity()
  {
    g := new Group();
    g.Push(d);
    g.Push(Inverse(d));
    PushInverseCancels(Identity(), d);
  }
}
