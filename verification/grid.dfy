/**
 * The value of a `Matrix` of Task3Laba3.cpp: a shape and a row-major buffer
 * of `rows * cols` integers, element (i, j) at offset `i * cols + j`. The
 * operators of the class are specified here as functions on such values,
 * and the algebra the operators are expected to obey is proved about them.
 */
module Grids {

  import Arith
  import opened Results

  /** The one failure of the arithmetic operators: the source throws
      `invalid_argument` when the shapes do not fit. */
  datatype Error = ShapeMismatch

  datatype Grid = Grid(rows: int, cols: int, cells: seq<int>) {

    /** Positive shape, and a buffer of exactly rows * cols elements. */
    predicate WellFormed()
    {
      1 <= rows && 1 <= cols && |cells| == rows * cols
    }

    /** The bounds test of `setElement` and `getElement`. */
    predicate InRange(i: int, j: int)
    {
      0 <= i < rows && 0 <= j < cols
    }

    /** Element (i, j), read at its row-major offset. */
    function At(i: int, j: int): int
      requires WellFormed() && InRange(i, j)
    {
      Arith.OffsetInRange(i, j, rows, cols);
      cells[i * cols + j]
    }

    /** The element count that `<` and `>` compare. */
    function Size(): int
    {
      rows * cols
    }
  }

  /** An n-by-m grid with every element `v`: the constructors
      `Matrix(n, m, value)`, `Matrix(n)` and `Matrix()` with v = 0. */
  function Filled(n: int, m: int, v: int): (g: Grid)
    requires 1 <= n && 1 <= m
    ensures g.WellFormed() && g.rows == n && g.cols == m
    ensures forall i, j :: g.InRange(i, j) ==> g.At(i, j) == v
  {
    var g := Grid(n, m, seq(n * m, _ => v));
    assert forall i, j | g.InRange(i, j) :: g.At(i, j) == v by {
      forall i, j | g.InRange(i, j) ensures g.At(i, j) == v {
        Arith.OffsetInRange(i, j, n, m);
      }
    }
    g
  }

  /** The grid after `setElement(i, j, v)` in range: element (i, j) is `v`
      and every other element is as before. */
  function Update(g: Grid, i: int, j: int, v: int): (h: Grid)
    requires g.WellFormed() && g.InRange(i, j)
    ensures h.WellFormed() && h.rows == g.rows && h.cols == g.cols
    ensures h.At(i, j) == v
    ensures forall i', j' :: g.InRange(i', j') && (i' != i || j' != j) ==> h.At(i', j') == g.At(i', j')
  {
    Arith.OffsetInRange(i, j, g.rows, g.cols);
    var h := g.(cells := g.cells[i * g.cols + j := v]);
    assert forall i', j' | g.InRange(i', j') && (i' != i || j' != j) :: h.At(i', j') == g.At(i', j') by {
      forall i', j' | g.InRange(i', j') && (i' != i || j' != j)
        ensures h.At(i', j') == g.At(i', j')
      {
        Arith.OffsetInRange(i', j', g.rows, g.cols);
        Arith.OffsetSplitAt(i, j, g.cols);
        Arith.OffsetSplitAt(i', j', g.cols);
      }
    }
    h
  }

  /** Element-wise sum, defined only for equal shapes. */
  function Add(a: Grid, b: Grid): (r: Result<Grid, Error>)
    requires a.WellFormed() && b.WellFormed()
    ensures r.Err? <==> a.rows != b.rows || a.cols != b.cols
    ensures r.Ok? ==> r.value.WellFormed() && r.value.rows == a.rows && r.value.cols == a.cols
    ensures r.Ok? ==> forall i, j :: a.InRange(i, j) ==> r.value.At(i, j) == a.At(i, j) + b.At(i, j)
  {
    if a.rows != b.rows || a.cols != b.cols then Err(ShapeMismatch)
    else
      var g := Grid(a.rows, a.cols, seq(|a.cells|, k requires 0 <= k < |a.cells| => a.cells[k] + b.cells[k]));
      assert forall i, j | a.InRange(i, j) :: g.At(i, j) == a.At(i, j) + b.At(i, j) by {
        forall i, j | a.InRange(i, j) ensures g.At(i, j) == a.At(i, j) + b.At(i, j) {
          Arith.OffsetInRange(i, j, a.rows, a.cols);
        }
      }
      Ok(g)
  }

  /** Element-wise difference, defined only for equal shapes. */
  function Sub(a: Grid, b: Grid): (r: Result<Grid, Error>)
    requires a.WellFormed() && b.WellFormed()
    ensures r.Err? <==> a.rows != b.rows || a.cols != b.cols
    ensures r.Ok? ==> r.value.WellFormed() && r.value.rows == a.rows && r.value.cols == a.cols
    ensures r.Ok? ==> forall i, j :: a.InRange(i, j) ==> r.value.At(i, j) == a.At(i, j) - b.At(i, j)
  {
    if a.rows != b.rows || a.cols != b.cols then Err(ShapeMismatch)
    else
      var g := Grid(a.rows, a.cols, seq(|a.cells|, k requires 0 <= k < |a.cells| => a.cells[k] - b.cells[k]));
      assert forall i, j | a.InRange(i, j) :: g.At(i, j) == a.At(i, j) - b.At(i, j) by {
        forall i, j | a.InRange(i, j) ensures g.At(i, j) == a.At(i, j) - b.At(i, j) {
          Arith.OffsetInRange(i, j, a.rows, a.cols);
        }
      }
      Ok(g)
  }

  /** The first n terms of the dot product of row i of `a` and column j of
      `b`, summed from k = 0 upward like the accumulation loop. */
  function Dot(a: Grid, b: Grid, i: int, j: int, n: int): int
    requires a.WellFormed() && b.WellFormed() && a.cols == b.rows
    requires 0 <= i < a.rows && 0 <= j < b.cols && 0 <= n <= a.cols
    decreases n
  {
    if n == 0 then 0 else Dot(a, b, i, j, n - 1) + a.At(i, n - 1) * b.At(n - 1, j)
  }

  /** The product element stored at buffer offset p of an
      a.rows-by-b.cols result. */
  function ProductCell(a: Grid, b: Grid, p: int): int
    requires a.WellFormed() && b.WellFormed() && a.cols == b.rows
    requires 0 <= p < a.rows * b.cols
  {
    Arith.OffsetSplit(p, a.rows, b.cols);
    Dot(a, b, p / b.cols, p % b.cols, a.cols)
  }

  /** Matrix product, defined when the inner dimensions agree: an
      a.rows-by-b.cols grid whose element (i, j) is the full dot product of
      row i of `a` and column j of `b`. */
  function Mul(a: Grid, b: Grid): (r: Result<Grid, Error>)
    requires a.WellFormed() && b.WellFormed()
    ensures r.Err? <==> a.cols != b.rows
    ensures r.Ok? ==> r.value.WellFormed() && r.value.rows == a.rows && r.value.cols == b.cols
    ensures r.Ok? ==> forall i, j :: r.value.InRange(i, j) ==> r.value.At(i, j) == Dot(a, b, i, j, a.cols)
  {
    if a.cols != b.rows then Err(ShapeMismatch)
    else
      var g := Grid(a.rows, b.cols, seq(a.rows * b.cols, p requires 0 <= p < a.rows * b.cols => ProductCell(a, b, p)));
      assert forall i, j | g.InRange(i, j) :: g.At(i, j) == Dot(a, b, i, j, a.cols) by {
        forall i, j | g.InRange(i, j) ensures g.At(i, j) == Dot(a, b, i, j, a.cols) {
          Arith.OffsetInRange(i, j, g.rows, g.cols);
          Arith.OffsetSplitAt(i, j, g.cols);
        }
      }
      Ok(g)
  }

  /** `==`: same shape and the same elements at every offset. */
  predicate Equal(a: Grid, b: Grid)
  {
    a.rows == b.rows && a.cols == b.cols && a.cells == b.cells
  }

  /** `<`: fewer elements, whatever the shapes. */
  predicate Less(a: Grid, b: Grid)
  {
    a.Size() < b.Size()
  }

  /** `>`: more elements, whatever the shapes. */
  predicate Greater(a: Grid, b: Grid)
  {
    a.Size() > b.Size()
  }
}
