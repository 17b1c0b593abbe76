# find-the-relation: the exact algebra and the word machine

find-the-relation is a puzzle. The player moves North, South, East or West,
and each move multiplies a 3x3 matrix of Laurent polynomials by a fixed
generator. The puzzle is solved when a non-empty sequence of moves brings the
matrix back to the identity. This project models three layers in Dafny and
proves their properties:

- **Polynomials** (`polynomial.dfy`, module `Polynomials`). A Laurent
  polynomial is a map from exponent to coefficient. `Add` and `Mul` follow the
  source loops. They accumulate into a fresh map with "read or zero, then add"
  and then drop the zero coefficients. Each is proved equal to a
  specification function (`Sum`, `Product`). The coefficient of `Product` is
  the convolution, a finite sum over the exponents of the left factor
  (`sums.dfy`, module `FiniteSums`). The ring laws the game relies on are
  proved about these functions.
- **Matrices** (`matrix.dfy`, module `Matrices`). 3x3 grids of polynomials,
  with the zero and identity matrices, and equality. The product cell is the
  fold, from zero, of the three cell products. The `MatMul` loop is proved
  equal to the specification `MatProduct`. Identity and zero laws are proved.
  So is a closed formula for right-multiplying by a matrix whose columns use
  only three exponents.
- **Group** (`group.dfy`, module `Groups`). The four generators are built
  cell by cell as the source builds them. A `Group` object holds them and the
  `current` product. `Push` right-multiplies `current`. Every generator has a
  closed-form right action. From it the model proves that a move followed by
  its inverse leaves any canonical matrix unchanged (every matrix the game
  produces is canonical), so N*S = S*N = E*W = W*E = I.
- **Level** (`level.dfy`, module `Levels`). A `Level` object holds one group
  per parameter and the word of moves. `Push` feeds every group, then cancels
  or appends the move. The class invariant says three things:
  - the word stays freely reduced;
  - every group's `current` equals the product of the generators along the
    word;
  - `flattened` mirrors the groups.

  `ReduceProduct` proves that the reduced word multiplies to the product of
  all the moves made. `ReduceReduced` and `ReduceCancelsPair` prove that the
  word is the free reduction of the moves: a reduced word is kept as it is,
  and deleting an adjacent opposite pair anywhere in the moves does not
  change the word left behind.

`algebra_cases.dfy` and `level_cases.dfy` state the worked examples from the
source's unit tests as lemmas and methods.

Where the source files disagree with each other, the model follows
`src/group.rs`. That file's `Group::new` takes no parameter, and its
generators are symbolic polynomial matrices. `src/level.rs` calls a
`Group::new(q)`, `flatten` and `current_is_identity`, none of which exist in
`src/group.rs`. The model stands in for them as follows:

- The level carries its parameters (`Param`) but does not use them to build
  the groups.
- Flattening lists the nine symbolic cells in row-major order.
- "The group is at the identity" is symbolic equality with `Identity()`.

## Model

| member | source | states |
|---|---|---|
| Polynomials.Zero | src/algebra.rs:47-50 | the zero polynomial is canonical and has coefficient 0 at every exponent |
| Polynomials.One | src/algebra.rs:52-56 | the one polynomial is canonical, with coefficient 1 at exponent 0 and 0 elsewhere |
| Polynomials.PolyEq | src/algebra.rs:41-45 | equality of the maps holds exactly when the polynomials are equal, and equal polynomials have equal coefficients |
| Polynomials.CoefExt | src/algebra.rs:21 | two canonical polynomials with the same coefficient at every exponent are the same map |
| Polynomials.Sum | src/algebra.rs:13-22 | the sum is canonical (no stored zero), and each coefficient is the sum of the two coefficients, with absent exponents counting as 0 |
| Polynomials.Retain | src/algebra.rs:21 | dropping zero entries gives a canonical polynomial with the same coefficients, storing only exponents of the input map |
| Polynomials.Add | src/algebra.rs:13-22 | the two accumulation loops followed by `retain` compute exactly `Sum(a, b)`, in whatever order the keys are visited |
| Polynomials.Product | src/algebra.rs:29-38 | the product never stores a zero coefficient |
| Polynomials.ProductCoef | src/algebra.rs:31-36 | coefficient e of a*b is the sum over the exponents k of a of a_k * b_(e-k) |
| Polynomials.ConvOutside | src/algebra.rs:31-35 | an exponent that is not a sum of a stored exponent of a and one of b gets coefficient 0 |
| Polynomials.Mul | src/algebra.rs:29-38 | the nested accumulation loops followed by `retain` compute exactly `Product(a, b)`, in whatever order the keys are visited |
| Polynomials.RetainConv | src/algebra.rs:36-37 | retaining the non-zero entries of a map that holds the whole convolution gives the product |
| Polynomials.ConvLeftMonomial | src/algebra.rs:31-34 | a left factor c*q^k shifts and scales: coefficient e is c * b_(e-k) |
| Polynomials.ConvRightMonomial | src/algebra.rs:31-34 | a right factor c*q^t: coefficient e is a_(e-t) * c |
| Polynomials.ConvRightZero | src/algebra.rs:31-34 | a right factor with no terms gives coefficient 0 everywhere |
| Polynomials.ConvRightSmall | src/algebra.rs:31-34 | a right factor whose exponents lie among three distinct t's: coefficient e is the sum of a_(e-t) * b_t over them |
| Polynomials.SumCommutes | src/algebra.rs:13-22 | a + b == b + a |
| Polynomials.SumAssociates | src/algebra.rs:13-22 | (a + b) + c == a + (b + c) |
| Polynomials.SumZero | src/algebra.rs:13-22 | adding zero on either side returns a canonical polynomial unchanged |
| Polynomials.ProductOne | src/algebra.rs:29-38 | multiplying a canonical polynomial by one on either side returns it unchanged |
| Polynomials.ProductZero | src/algebra.rs:29-38 | multiplying by zero on either side gives zero |
| Polynomials.ConvSumRight | src/algebra.rs:31-34 | the convolution is additive in the right factor |
| Polynomials.ConvSumLeft | src/algebra.rs:31-34 | the convolution is additive in the left factor |
| Polynomials.ProductDistributesLeft | src/algebra.rs:13-38 | a * (b + c) == a*b + a*c |
| Polynomials.ProductDistributesRight | src/algebra.rs:13-38 | (a + b) * c == a*c + b*c |
| Matrices.ZeroMatrix | src/algebra.rs:92-98 | every cell is the zero polynomial and the matrix is canonical |
| Matrices.Identity | src/algebra.rs:100-106 | one on the diagonal and zero elsewhere, canonical |
| Matrices.WithCell | src/algebra.rs:103 | assigning cell (i, j) sets that cell and leaves the other eight unchanged |
| Matrices.BuildIdentity | src/algebra.rs:100-106 | writing one on each diagonal cell of the zero matrix yields `Identity()` |
| Matrices.MatrixCoefExt | src/algebra.rs:78-89 | canonical matrices with the same coefficients in every cell are equal |
| Matrices.MatProductCoef | src/algebra.rs:67-75 | product cell (i, j) is canonical, and its coefficient e is the sum over k of the convolutions of a[i][k] with b[k][j] |
| Matrices.MatProductCanonical | src/algebra.rs:71 | every cell of a matrix product is canonical |
| Matrices.MatMul | src/algebra.rs:67-75 | the loops, each cell folding three products from zero, compute exactly `MatProduct(a, b)` |
| Matrices.MatEq | src/algebra.rs:78-89 | cell-by-cell comparison holds exactly when the matrices are equal |
| Matrices.IdentityLeft | src/algebra.rs:180-195 | identity * b == b for a matrix with canonical cells |
| Matrices.IdentityRight | src/algebra.rs:67-75 | a * identity == a for a matrix with canonical cells |
| Matrices.ZeroLeft | src/algebra.rs:197-212 | zero * b == zero for every b |
| Matrices.ZeroRight | src/algebra.rs:67-75 | a * zero == zero for every a |
| Matrices.RightMulColumn | src/algebra.rs:71 | when column j of g uses only three exponents, coefficient e of (m*g)[i][j] is given without any convolution |
| Matrices.Flatten | src/level.rs:14-15 | nine cells in row-major order: entry k is cell (k / 3, k % 3) |
| AlgebraCases.AddOverlapping | src/algebra.rs:113-126 | (t + 2t^2) + (-1 + t) = -1 + 2t + 2t^2: three stored terms |
| AlgebraCases.AddCancelling | src/algebra.rs:128-140 | (t + 2t^2) + (-1 - t) = -1 + 2t^2: the cancelled term is not stored |
| AlgebraCases.MulNegative | src/algebra.rs:142-154 | (t + 2t^2) * (-1) = -t - 2t^2 |
| AlgebraCases.MulCancelling | src/algebra.rs:156-170 | (2t^-2 + 2t^2)^2 = 4t^-4 + 8 + 4t^4 as a whole map. The source test reads the coefficient of t^-4 twice (lines 167 and 169) and never reads the one of t^4; the lemma covers t^4 as well |
| AlgebraCases.IdentitySquared | src/algebra.rs:172-178 | identity * identity == identity |
| AlgebraCases.NonTrivialProduct | src/algebra.rs:214-269 | the worked 3x3 product equals the stated matrix |
| Groups.Inverse | src/level.rs:34-39 | the opposite move: North and South pair up, East and West pair up; no move is its own opposite |
| Groups.InverseInvolutive | src/level.rs:34-39 | the opposite of the opposite is the move itself |
| Groups.GeneratorShape | src/group.rs:27-104 | every generator cell is canonical and uses only the exponents -1, 0, 1 |
| Groups.GeneratorIsNotIdentity | src/group.rs:27-104 | no generator is the identity |
| Groups.RightMulGenerator | src/group.rs:117 | coefficient e of (m * generator)[i][j] in closed form, from row i of m shifted by at most one |
| Groups.PushInverseCancels | src/group.rs:110-118 | for canonical m, m * G(d) * G(opposite d) == m |
| Groups.GeneratorRelations | src/group.rs:177-207 | G(d) * G(opposite d) is the identity: N*S = S*N = E*W = W*E = I |
| Groups.BuildNorth | src/group.rs:27-49 | the zero matrix with the five listed cells overwritten is the North generator |
| Groups.BuildSouth | src/group.rs:51-73 | the zero matrix with the five listed cells overwritten is the South generator |
| Groups.BuildEast | src/group.rs:75-86 | the identity with the four listed cells overwritten is the East generator |
| Groups.BuildWest | src/group.rs:88-104 | the identity with the four listed cells overwritten is the West generator |
| Groups.Group.Generator | src/group.rs:111-116 | the matrix push selects for a move is that move's generator |
| Groups.Group.constructor | src/group.rs:25-108 | a new group holds the four generators, and `current` is the identity |
| Groups.Group.CurrentIsIdentity | src/level.rs:68 | true exactly when `current` is the identity matrix |
| Groups.Group.Push | src/group.rs:110-118 | `current` becomes old `current` * generator (right multiplication); the generators are unchanged and the group stays well formed |
| Groups.NorthFromIdentity | src/group.rs:170-175 | identity * North is the North generator, which differs from the identity |
| Groups.PushNorthFromFresh | src/group.rs:161-175 | after one North move from a fresh group, `current` is the North generator and not the identity |
| Groups.PushThenInverseFromFresh | src/group.rs:177-207 | from a fresh group, a move followed by its opposite leaves `current` at the identity |
| Levels.Letter | src/level.rs:59-64 | each move is shown as one of 'N', 'S', 'E', 'W' |
| Levels.LetterInjective | src/level.rs:59-64 | distinct moves are shown as distinct letters |
| Levels.Spell | src/level.rs:58-65 | the string has the word's length, and position i holds the letter of move i |
| Levels.SpellInjective | src/level.rs:58-65 | the shown string determines the word |
| Levels.StepReduced | src/level.rs:33-44 | cancelling or appending keeps the word free of adjacent opposite pairs |
| Levels.StepUndo | src/level.rs:33-44 | on a reduced word, the opposite move undoes a step |
| Levels.StepProduct | src/level.rs:29-46 | the product along the new word is the old product times the move's generator, whether the move cancels or is appended |
| Levels.ReduceProduct | src/level.rs:29-46 | for any sequence of moves, the word left behind is reduced and multiplies to the product of all the moves |
| Levels.ReduceSnoc | src/level.rs:29-46 | one more move on the sequence is one more cancel-or-append step on the word |
| Levels.ReduceReduced | src/level.rs:33-44 | a sequence of moves with no adjacent opposite pair is left exactly as it is |
| Levels.ReduceCancelsPair | src/level.rs:33-44 | deleting a move followed by its opposite, anywhere in the sequence, leaves the same word: the word is the free reduction of the moves |
| Levels.MakeGroups | src/level.rs:25-27 | one new, distinct, well-formed group per parameter, each at the identity |
| Levels.FlattenGroups | src/level.rs:14-15 | one flattened entry per group, entry i being group i's cells |
| Levels.PushEach | src/level.rs:30-32 | every group is pushed by the same move, and each stays well formed |
| Levels.Level.constructor | src/level.rs:12-23 | a new level is well formed, with an empty word and one new group per parameter, each at the identity |
| Levels.Level.UpdateFlattened | src/level.rs:54-56 | `flattened` is recomputed, one entry per group; groups and word are untouched |
| Levels.Level.Push | src/level.rs:29-46 | every group's `current` is right-multiplied by the move; the word takes one cancel-or-append step; the invariant is kept |
| Levels.Level.StepWord | src/level.rs:33-44 | pop when the last move is the opposite, else append; the word stays reduced and its product gains the move's generator |
| Levels.Level.Reset | src/level.rs:48-52 | the word is emptied; the group count is unchanged; every group is new and at the identity; the invariant holds |
| Levels.Level.Word | src/level.rs:58-65 | the displayed string has one letter per move, in order |
| Levels.Level.IsSolved | src/level.rs:67-69 | solved exactly when the word is non-empty and, unless there are no groups at all, the word multiplies to the identity; with no groups any non-empty word counts, as `all` over nothing holds |
| LevelCases.WordScenario | src/level.rs:76-99 | from a new level, N, E, W, S give the words [], [N], [N, E], [N], [] and the strings "", "N", "NE", "N", "" |
| LevelCases.NorthThenEast | src/level.rs:84-90 | from the empty word, North gives [N] and "N", then East gives [N, E] and "NE" |
| LevelCases.WestThenSouth | src/level.rs:92-98 | from [N, E], West gives [N] and "N", then South gives [] and "" |
| LevelCases.PushAndShow | src/level.rs:84-86 | one push takes one cancel-or-append step, and the shown string spells the new word |
| LevelCases.ScenarioSteps | src/level.rs:76-99 | the steps and spellings the word scenario passes through |
| LevelCases.ResetScenario | src/level.rs:101-115 | the first group is at the identity at the start, not after North, and again after reset; the word is non-empty after the push and empty after reset |
| LevelCases.SolvedScenario | src/level.rs:117-124 | a new level is not solved, nor is it after one North move |
| LevelCases.NorthTwiceIsNotIdentity | src/level.rs:125-126 | symbolically N * N is not the identity: coefficient 2 of cell (1, 1) is 1 |

## Left out

- Floating-point evaluation is not modelled: `Group::evaluate`, `evaluate_polynomial` and `evaluated_matrix_is_trivial` (src/group.rs:120-147), and their tests (src/group.rs:153-168, 209-244). `Param` only stands in for the complex parameter of a level.
- Levels.Level.IsSolved: decides "at the identity" by exact symbolic equality. The evaluated, per-parameter comparison that `current_is_identity` performs in the running game is not modelled.
- Groups.Group.CurrentIsIdentity: `src/group.rs` has no such method. This one compares the symbolic `current` with `Identity()`.
- Matrices.Flatten: `src/group.rs` has no `flatten`. This one lists the nine symbolic cells rather than nine evaluated complex values.
- Levels.MakeGroups: `src/group.rs` has a parameterless `Group::new`, so the parameters only fix the number of groups, not their generators.
- The last step of the `is_solved` test (src/level.rs:125-126): two North moves count as solved. That holds only after evaluation at q = 1. Symbolically N * N is not the identity (`LevelCases.NorthTwiceIsNotIdentity`), so `SolvedScenario` stops after the first move.
- Polynomials.Add: coefficients are unbounded integers; the `i32` overflow of `+=` is not modelled.
- Polynomials.Mul: coefficients and exponents are unbounded integers; the `i32` overflow of `a_coef * b_coef` and `a_pow + b_pow` is not modelled.
- `HashMap` iteration order: the loops visit keys in an arbitrary order, chosen by `:|`. The results are proved not to depend on it.
- src/lib.rs and www/index.js (the WebAssembly bindings and the browser interface) are not part of this model.
- The trace, determinant and distance from the identity are not modelled, because they do not appear in `src/algebra.rs` or `src/group.rs`.
