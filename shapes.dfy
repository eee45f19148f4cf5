/** The piece catalogue: the seven tetromino kinds, their 0/1 base matrices,
    the 90-degree clockwise turn and the four rotation states built from it,
    the cell count used for scoring and the occupied offsets of a matrix in
    the row-major order in which the grid visits them. */
module Shapes {

  datatype Kind = O | I | T | L | J | S | Z

  /** A matrix entry: 1 is an occupied cell, 0 an empty one. */
  type Bit = b: int | 0 <= b <= 1

  type Matrix = seq<seq<Bit>>

  /** The position of an occupied cell inside a piece's matrix. */
  datatype Offset = Offset(row: int, col: int)

  // ---------------------------------------------------------------------
  // Clockwise rotation
  // ---------------------------------------------------------------------

  /** The number of tuples `zip(*rows)` yields: the length of the shortest row,
      and 0 for a matrix without rows. */
  function ZipWidth(m: Matrix): (w: nat)
    ensures forall r :: 0 <= r < |m| ==> w <= |m[r]|
    ensures |m| > 0 ==> exists r :: 0 <= r < |m| && w == |m[r]|
    ensures |m| == 0 ==> w == 0
  {
    if |m| == 0 then 0
    else if |m| == 1 then |m[0]|
    else
      var rest := ZipWidth(m[1..]);
      assert forall r :: 1 <= r < |m| ==> m[r] == m[1..][r - 1];
      if |m[0]| <= rest then |m[0]| else rest
  }

  /** Every row has the width `zip` sees, so no entry is dropped by a turn. */
  predicate Uniform(m: Matrix) {
    forall r :: 0 <= r < |m| ==> |m[r]| == ZipWidth(m)
  }

  /** A uniform matrix with at least one row and one column. */
  predicate Rectangular(m: Matrix) {
    Uniform(m) && |m| > 0 && |m[0]| > 0
  }

  /** `list(zip(*m[::-1]))`: an R x C matrix becomes a C x R matrix whose entry
      (i, j) is the input's entry (R-1-j, i). */
  function RotateCW(m: Matrix): (r: Matrix)
    ensures |r| == ZipWidth(m)
    ensures forall i :: 0 <= i < |r| ==> |r[i]| == |m|
    ensures forall i, j :: 0 <= i < |r| && 0 <= j < |m| ==> r[i][j] == m[|m| - 1 - j][i]
  {
    var w := ZipWidth(m);
    seq(w, i requires 0 <= i < w => seq(|m|, j requires 0 <= j < |m| => m[|m| - 1 - j][i]))
  }

  /** Turning a rectangular R x C matrix gives a rectangular C x R matrix. */
  lemma RotateRectangular(m: Matrix)
    requires Rectangular(m)
    ensures Rectangular(RotateCW(m))
    ensures |RotateCW(m)| == |m[0]| && |RotateCW(m)[0]| == |m|
  {
    var r := RotateCW(m);
    assert ZipWidth(m) == |m[0]|;
    assert |r| > 0 && |r[0]| == |m|;
    assert ZipWidth(r) == |m| by {
      var k :| 0 <= k < |r| && ZipWidth(r) == |r[k]|;
    }
  }

  /** Two turns map entry (i, j) to the input's entry (R-1-i, C-1-j). */
  lemma RotateTwice(m: Matrix)
    requires Rectangular(m)
    ensures |RotateCW(RotateCW(m))| == |m|
    ensures forall i :: 0 <= i < |m| ==> |RotateCW(RotateCW(m))[i]| == |m[0]|
    ensures forall i, j :: 0 <= i < |m| && 0 <= j < |m[0]| ==>
      RotateCW(RotateCW(m))[i][j] == m[|m| - 1 - i][|m[0]| - 1 - j]
  {
    RotateRectangular(m);
  }

  /** Four clockwise turns give back a rectangular matrix exactly. */
  lemma RotateFourTimes(m: Matrix)
    requires Rectangular(m)
    ensures RotateCW(RotateCW(RotateCW(RotateCW(m)))) == m
  {
    var h := RotateCW(RotateCW(m));
    RotateRectangular(m);
    RotateRectangular(RotateCW(m));
    RotateTwice(m);
    RotateTwice(h);
    var f := RotateCW(RotateCW(h));
    assert |f| == |m|;
    forall i | 0 <= i < |m|
      ensures f[i] == m[i]
    {
      assert |f[i]| == |m[i]|;
      forall j | 0 <= j < |m[i]|
        ensures f[i][j] == m[i][j]
      {
        assert f[i][j] == h[|m| - 1 - i][|m[0]| - 1 - j];
      }
    }
  }

  // ---------------------------------------------------------------------
  // The four rotation states
  // ---------------------------------------------------------------------

  /** `_generate_all_rotations`: the base matrix itself, then three successive
      clockwise turns. */
  function GenerateRotations(m: Matrix): (states: seq<Matrix>)
    ensures |states| == 4 && states[0] == m
    ensures states[1] == RotateCW(states[0])
    ensures states[2] == RotateCW(states[1])
    ensures states[3] == RotateCW(states[2])
  {
    RotationsFrom([m], m, 3)
  }

  /** The loop of `_generate_all_rotations`: `n` more turns of `current`, each
      appended to `acc`. */
  function RotationsFrom(acc: seq<Matrix>, current: Matrix, n: nat): (states: seq<Matrix>)
    requires |acc| > 0 && acc[|acc| - 1] == current
    ensures |states| == |acc| + n && states[..|acc|] == acc
    ensures forall i :: |acc| <= i < |states| ==> states[i] == RotateCW(states[i - 1])
    decreases n
  {
    if n == 0 then acc
    else
      var rotated := RotateCW(current);
      RotationsFrom(acc + [rotated], rotated, n - 1)
  }

  /** The rotation states of a rectangular matrix: all rectangular, with the
      dimensions swapped at each step, and one more turn of the last state
      gives back the base matrix. */
  lemma RotationStatesCycle(m: Matrix)
    requires Rectangular(m)
    ensures forall i :: 0 <= i < 4 ==> Rectangular(GenerateRotations(m)[i])
    ensures forall i :: 0 <= i < 4 ==>
      |GenerateRotations(m)[i]| == (if i % 2 == 0 then |m| else |m[0]|) &&
      |GenerateRotations(m)[i][0]| == (if i % 2 == 0 then |m[0]| else |m|)
    ensures RotateCW(GenerateRotations(m)[3]) == m
  {
    var st := GenerateRotations(m);
    var r, c := |m|, |m[0]|;
    RotateRectangular(st[0]);
    assert Rectangular(st[1]) && |st[1]| == c && |st[1][0]| == r;
    RotateRectangular(st[1]);
    assert Rectangular(st[2]) && |st[2]| == r && |st[2][0]| == c;
    RotateRectangular(st[2]);
    assert Rectangular(st[3]) && |st[3]| == c && |st[3][0]| == r;
    RotateFourTimes(m);
    forall i | 0 <= i < 4
      ensures Rectangular(st[i])
      ensures |st[i]| == (if i % 2 == 0 then r else c) && |st[i][0]| == (if i % 2 == 0 then c else r)
    {
      if i == 0 {
      } else if i == 1 {
      } else if i == 2 {
      } else {
      }
    }
  }

  // ---------------------------------------------------------------------
  // Cell counts
  // ---------------------------------------------------------------------

  /** The sum of `row[c..]`. */
  function RowSum(row: seq<Bit>, c: nat): int
    decreases |row| - c
  {
    if c >= |row| then 0 else row[c] + RowSum(row, c + 1)
  }

  /** The sum of column `c` from row `r` down; a row too short to have column
      `c` contributes nothing. */
  function ColSum(m: Matrix, c: nat, r: nat): int
    decreases |m| - r
  {
    if r >= |m| then 0 else (if c < |m[r]| then m[r][c] else 0) + ColSum(m, c, r + 1)
  }

  /** The sum of the entries of rows `r..` from column `c` on, row by row. */
  function ByRows(m: Matrix, r: nat, c: nat): int
    decreases |m| - r
  {
    if r >= |m| then 0 else RowSum(m[r], c) + ByRows(m, r + 1, c)
  }

  /** The same region summed column by column, for columns `c..w-1`. */
  function ByCols(m: Matrix, r: nat, c: nat, w: nat): int
    decreases w - c
  {
    if c >= w then 0 else ColSum(m, c, r) + ByCols(m, r, c + 1, w)
  }

  /** `sum(sum(row) for row in m)`: the number of occupied cells. */
  function BlockCount(m: Matrix): int {
    ByRows(m, 0, 0)
  }

  lemma {:induction false} ByRowsPeelColumn(m: Matrix, r: nat, c: nat)
    ensures ByRows(m, r, c) == ColSum(m, c, r) + ByRows(m, r, c + 1)
    decreases |m| - r
  {
    if r < |m| {
      ByRowsPeelColumn(m, r + 1, c);
    }
  }

  /** Summing row by row or column by column gives the same total. */
  lemma {:induction false} SwapSums(m: Matrix, r: nat, c: nat, w: nat)
    requires forall k :: 0 <= k < |m| ==> |m[k]| <= w
    ensures ByRows(m, r, c) == ByCols(m, r, c, w)
    decreases w - c
  {
    if c < w {
      ByRowsPeelColumn(m, r, c);
      SwapSums(m, r, c + 1, w);
    } else {
      ByRowsZero(m, r, c);
    }
  }

  lemma {:induction false} ByRowsZero(m: Matrix, r: nat, c: nat)
    requires forall k :: 0 <= k < |m| ==> |m[k]| <= c
    ensures ByRows(m, r, c) == 0
    decreases |m| - r
  {
    if r < |m| {
      ByRowsZero(m, r + 1, c);
    }
  }

  /** A row of the turned matrix read from `j` on is column `i` of the input
      read upwards from row R-1-j. */
  lemma {:induction false} RotatedRowSum(m: Matrix, i: nat, j: nat)
    requires i < ZipWidth(m) && j <= |m|
    ensures RowSum(RotateCW(m)[i], j) + ColSum(m, i, |m| - j) == ColSum(m, i, 0)
    decreases |m| - j
  {
    if j < |m| {
      RotatedRowSum(m, i, j + 1);
    }
  }

  lemma {:induction false} RotatedByRows(m: Matrix, i: nat)
    requires i <= ZipWidth(m)
    ensures ByRows(RotateCW(m), i, 0) == ByCols(m, 0, i, ZipWidth(m))
    decreases ZipWidth(m) - i
  {
    if i < ZipWidth(m) {
      RotatedRowSum(m, i, 0);
      RotatedByRows(m, i + 1);
    }
  }

  /** A turn keeps the number of occupied cells of a uniform matrix. */
  lemma RotatePreservesCount(m: Matrix)
    requires Uniform(m)
    ensures BlockCount(RotateCW(m)) == BlockCount(m)
  {
    RotatedByRows(m, 0);
    SwapSums(m, 0, 0, ZipWidth(m));
  }

  /** Every rotation state of a rectangular matrix has as many occupied cells
      as the base matrix. */
  lemma RotationStatesKeepCount(m: Matrix)
    requires Rectangular(m)
    ensures forall i :: 0 <= i < 4 ==> BlockCount(GenerateRotations(m)[i]) == BlockCount(m)
  {
    var st := GenerateRotations(m);
    RotationStatesCycle(m);
    RotatePreservesCount(st[0]);
    RotatePreservesCount(st[1]);
    RotatePreservesCount(st[2]);
  }

  // ---------------------------------------------------------------------
  // Occupied offsets, in the row-major order of the grid's scans
  // ---------------------------------------------------------------------

  /** The offsets (r, c') of the non-zero entries of `row` at columns `c..`. */
  function RowCoords(row: seq<Bit>, r: int, c: nat): seq<Offset>
    decreases |row| - c
  {
    if c >= |row| then []
    else (if row[c] != 0 then [Offset(r, c)] else []) + RowCoords(row, r, c + 1)
  }

  /** The offsets of the non-zero entries of rows `r..`, row by row. */
  function CoordsFrom(m: Matrix, r: nat): seq<Offset>
    decreases |m| - r
  {
    if r >= |m| then [] else RowCoords(m[r], r, 0) + CoordsFrom(m, r + 1)
  }

  /** The occupied offsets of `m`, in the order `for y, row in enumerate(m):
      for x, cell in enumerate(row): if cell:` visits them. */
  function Coords(m: Matrix): seq<Offset> {
    CoordsFrom(m, 0)
  }

  lemma {:induction false} RowCoordsMembership(row: seq<Bit>, r: int, c: nat, o: Offset)
    ensures o in RowCoords(row, r, c) <==> o.row == r && c <= o.col < |row| && row[o.col] == 1
    decreases |row| - c
  {
    if c < |row| {
      RowCoordsMembership(row, r, c + 1, o);
    }
  }

  lemma {:induction false} CoordsFromMembership(m: Matrix, r: nat, o: Offset)
    ensures o in CoordsFrom(m, r) <==>
      r <= o.row < |m| && 0 <= o.col < |m[o.row]| && m[o.row][o.col] == 1
    decreases |m| - r
  {
    if r < |m| {
      RowCoordsMembership(m[r], r, 0, o);
      CoordsFromMembership(m, r + 1, o);
    }
  }

  /** An offset is listed exactly when it names an occupied entry. */
  lemma CoordsMembership(m: Matrix, o: Offset)
    ensures o in Coords(m) <==> 0 <= o.row < |m| && 0 <= o.col < |m[o.row]| && m[o.row][o.col] == 1
  {
    CoordsFromMembership(m, 0, o);
  }

  /** Strictly increasing in row-major order. */
  predicate LexBefore(a: Offset, b: Offset) {
    a.row < b.row || (a.row == b.row && a.col < b.col)
  }

  predicate RowMajor(cs: seq<Offset>) {
    forall i, j :: 0 <= i < j < |cs| ==> LexBefore(cs[i], cs[j])
  }

  lemma {:induction false} RowCoordsOrdered(row: seq<Bit>, r: int, c: nat)
    ensures RowMajor(RowCoords(row, r, c))
    ensures forall k :: 0 <= k < |RowCoords(row, r, c)| ==>
      RowCoords(row, r, c)[k].row == r && RowCoords(row, r, c)[k].col >= c
    decreases |row| - c
  {
    if c < |row| {
      RowCoordsOrdered(row, r, c + 1);
    }
  }

  lemma {:induction false} CoordsFromOrdered(m: Matrix, r: nat)
    ensures RowMajor(CoordsFrom(m, r))
    ensures forall k :: 0 <= k < |CoordsFrom(m, r)| ==> CoordsFrom(m, r)[k].row >= r
    decreases |m| - r
  {
    if r < |m| {
      RowCoordsOrdered(m[r], r, 0);
      CoordsFromOrdered(m, r + 1);
      var a, b := RowCoords(m[r], r, 0), CoordsFrom(m, r + 1);
      assert CoordsFrom(m, r) == a + b;
      forall i, j | 0 <= i < j < |a + b|
        ensures LexBefore((a + b)[i], (a + b)[j])
      {
        if j < |a| {
        } else if i < |a| {
          assert (a + b)[j] == b[j - |a|];
        } else {
          assert (a + b)[i] == b[i - |a|] && (a + b)[j] == b[j - |a|];
        }
      }
      forall k | 0 <= k < |a + b|
        ensures (a + b)[k].row >= r
      {
        if k >= |a| {
          assert (a + b)[k] == b[k - |a|];
        }
      }
    }
  }

  /** The occupied offsets come in strict row-major order, so none repeats. */
  lemma CoordsOrdered(m: Matrix)
    ensures RowMajor(Coords(m))
  {
    CoordsFromOrdered(m, 0);
  }

  lemma {:induction false} RowCoordsCount(row: seq<Bit>, r: int, c: nat)
    ensures |RowCoords(row, r, c)| == RowSum(row, c)
    decreases |row| - c
  {
    if c < |row| {
      RowCoordsCount(row, r, c + 1);
    }
  }

  lemma {:induction false} CoordsFromCount(m: Matrix, r: nat)
    ensures |CoordsFrom(m, r)| == ByRows(m, r, 0)
    decreases |m| - r
  {
    if r < |m| {
      RowCoordsCount(m[r], r, 0);
      CoordsFromCount(m, r + 1);
    }
  }

  /** There are as many occupied offsets as the matrix's entries add up to. */
  lemma CoordsCount(m: Matrix)
    ensures |Coords(m)| == BlockCount(m)
  {
    CoordsFromCount(m, 0);
  }

  // ---------------------------------------------------------------------
  // The catalogue
  // ---------------------------------------------------------------------

  /** The base matrices of `_create_definitions`. */
  function BaseMatrix(k: Kind): Matrix {
    match k
    case O => [[1, 1], [1, 1]]
    case I => [[1, 1, 1, 1]]
    case T => [[0, 1, 0], [1, 1, 1]]
    case L => [[1, 0, 0], [1, 1, 1]]
    case J => [[0, 0, 1], [1, 1, 1]]
    case S => [[0, 1, 1], [1, 1, 0]]
    case Z => [[1, 1, 0], [0, 1, 1]]
  }

  /** The palette entry each definition names (used only for drawing). */
  function ColorName(k: Kind): string {
    match k
    case O => "YELLOW"
    case I => "LIGHT_BLUE"
    case T => "PURPLE"
    case L => "ORANGE"
    case J => "BLUE"
    case S => "GREEN"
    case Z => "RED"
  }

  /** `_get_color_code`: the one-letter code a locked cell of this kind holds. */
  function ColorCode(k: Kind): char {
    match k
    case O => 'y'
    case I => 'l'
    case T => 'p'
    case L => 'o'
    case J => 'b'
    case S => 'g'
    case Z => 'r'
  }

  /** Distinct kinds leave distinct codes in the grid. */
  lemma ColorCodesDistinct(a: Kind, b: Kind)
    ensures ColorCode(a) == ColorCode(b) <==> a == b
  {
  }

  datatype Definition = Definition(
    shapeType: Kind,
    shapeMatrix: Matrix,
    colorName: string,
    rotationStates: seq<Matrix>)

  /** Every base matrix is rectangular, at most 2 rows by 4 columns, with
      exactly four occupied cells. */
  lemma BaseMatrixShape(k: Kind)
    ensures Rectangular(BaseMatrix(k))
    ensures |BaseMatrix(k)| <= 2 && |BaseMatrix(k)[0]| <= 4
    ensures BlockCount(BaseMatrix(k)) == 4
  {
    var m := BaseMatrix(k);
    assert ByRows(m, |m|, 0) == 0;
    if |m| == 2 {
      assert ByRows(m, 1, 0) == RowSum(m[1], 0);
    }
  }

  /** The entry of `_create_definitions` for kind `k`: its base matrix and
      colour, with the rotation states `__post_init__` generates. */
  function CatalogueEntry(k: Kind): Definition {
    Definition(k, BaseMatrix(k), ColorName(k), GenerateRotations(BaseMatrix(k)))
  }

  /** The catalogue entry of every kind carries its own kind, base matrix and
      colour, and four rotation states that turn clockwise one into the next,
      are all rectangular and all hold four cells. */
  lemma DefinitionFacts(k: Kind)
    ensures var d := CatalogueEntry(k);
      d.shapeType == k && d.shapeMatrix == BaseMatrix(k) && d.colorName == ColorName(k) &&
      |d.rotationStates| == 4 && d.rotationStates[0] == d.shapeMatrix &&
      d.rotationStates[1] == RotateCW(d.rotationStates[0]) &&
      d.rotationStates[2] == RotateCW(d.rotationStates[1]) &&
      d.rotationStates[3] == RotateCW(d.rotationStates[2]) &&
      RotateCW(d.rotationStates[3]) == d.shapeMatrix &&
      forall i :: 0 <= i < 4 ==>
        Rectangular(d.rotationStates[i]) && BlockCount(d.rotationStates[i]) == 4
  {
    BaseMatrixShape(k);
    RotationStatesCycle(BaseMatrix(k));
    RotationStatesKeepCount(BaseMatrix(k));
  }

  // ---------------------------------------------------------------------
  // The factory
  // ---------------------------------------------------------------------

  /** A `TetrominoFactory`: its dictionary of definitions. */
  datatype Factory = Factory(definitions: map<Kind, Definition>)

  /** The keys of `_create_definitions`: every kind. */
  const AllKinds: set<Kind> := {O, I, T, L, J, S, Z}

  /** `TetrominoFactory()`: the catalogue entry of every kind. */
  function NewFactory(): Factory {
    Factory(map k | k in AllKinds :: CatalogueEntry(k))
  }

  /** `get_definition`: the dictionary lookup, which raises for a missing key. */
  function GetDefinition(f: Factory, k: Kind): Definition
    requires k in f.definitions
  {
    f.definitions[k]
  }

  /** A new factory holds every kind, each with its catalogue entry. */
  lemma NewFactoryLookup(k: Kind)
    ensures k in NewFactory().definitions && GetDefinition(NewFactory(), k) == CatalogueEntry(k)
  {
    assert k in AllKinds;
  }
}
