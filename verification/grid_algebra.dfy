/**
 * What the operators of Task3Laba3.cpp's `Matrix` promise beyond a single
 * call: equality is element-wise equality, addition is commutative and
 * associative and undone by subtraction, the identity matrix is neutral for
 * multiplication, and `<` / `>` order by element count only.
 */
module GridAlgebra {

  import Arith
  import opened Grids
  import opened Results

  /** Two well-formed grids of one shape that agree at every position are
      the same grid. */
  lemma Extensionality(g: Grid, h: Grid)
    requires g.WellFormed() && h.WellFormed() && g.rows == h.rows && g.cols == h.cols
    requires forall i, j :: g.InRange(i, j) ==> g.At(i, j) == h.At(i, j)
    ensures g == h
  {
    forall p | 0 <= p < |g.cells| ensures g.cells[p] == h.cells[p] {
      Arith.OffsetSplit(p, g.rows, g.cols);
      assert g.At(p / g.cols, p % g.cols) == h.At(p / g.cols, p % g.cols);
    }
    assert g.cells == h.cells;
  }

  /** `==` holds exactly when the shapes agree and so does every element. */
  lemma EqualMeansSameElements(a: Grid, b: Grid)
    requires a.WellFormed() && b.WellFormed()
    ensures Equal(a, b) <==>
              a.rows == b.rows && a.cols == b.cols &&
              forall i, j :: a.InRange(i, j) ==> a.At(i, j) == b.At(i, j)
  {
    if a.rows == b.rows && a.cols == b.cols && forall i, j :: a.InRange(i, j) ==> a.At(i, j) == b.At(i, j) {
      Extensionality(a, b);
    }
  }

  lemma AddCommutative(a: Grid, b: Grid)
    requires a.WellFormed() && b.WellFormed()
    ensures Add(a, b) == Add(b, a)
  {
    if a.rows == b.rows && a.cols == b.cols {
      Extensionality(Add(a, b).value, Add(b, a).value);
    }
  }

  lemma AddAssociative(a: Grid, b: Grid, c: Grid)
    requires a.WellFormed() && b.WellFormed() && c.WellFormed()
    requires a.rows == b.rows == c.rows && a.cols == b.cols == c.cols
    ensures Add(a, b).Ok? && Add(b, c).Ok?
    ensures Add(Add(a, b).value, c) == Add(a, Add(b, c).value)
  {
    Extensionality(Add(Add(a, b).value, c).value, Add(a, Add(b, c).value).value);
  }

  /** Subtracting what was added gives back the original grid. */
  lemma SubUndoesAdd(a: Grid, b: Grid)
    requires a.WellFormed() && b.WellFormed()
    requires a.rows == b.rows && a.cols == b.cols
    ensures Add(a, b).Ok? && Sub(Add(a, b).value, b) == Ok(a)
  {
    Extensionality(Sub(Add(a, b).value, b).value, a);
  }

  /** The n-by-n identity: ones on the diagonal, zeros elsewhere. */
  function Identity(n: int): (g: Grid)
    requires 1 <= n
    ensures g.WellFormed() && g.rows == n && g.cols == n
    ensures forall i, j :: g.InRange(i, j) ==> g.At(i, j) == if i == j then 1 else 0
  {
    var g := Grid(n, n, seq(n * n, p requires 0 <= p < n * n => if p / n == p % n then 1 else 0));
    assert forall i, j | g.InRange(i, j) :: g.At(i, j) == if i == j then 1 else 0 by {
      forall i, j | g.InRange(i, j) ensures g.At(i, j) == if i == j then 1 else 0 {
        Arith.OffsetInRange(i, j, n, n);
        Arith.OffsetSplitAt(i, j, n);
      }
    }
    g
  }

  /** The first n terms of row i of `a` against column j of the identity
      pick out a(i, j) once j is among them. */
  lemma {:induction false} DotIdentityRight(a: Grid, i: int, j: int, n: int)
    requires a.WellFormed() && 0 <= i < a.rows && 0 <= j < a.cols && 0 <= n <= a.cols
    ensures Dot(a, Identity(a.cols), i, j, n) == if j < n then a.At(i, j) else 0
  {
    if n > 0 {
      DotIdentityRight(a, i, j, n - 1);
    }
  }

  /** The first n terms of row i of the identity against column j of `a`
      pick out a(i, j) once i is among them. */
  lemma {:induction false} DotIdentityLeft(a: Grid, i: int, j: int, n: int)
    requires a.WellFormed() && 0 <= i < a.rows && 0 <= j < a.cols && 0 <= n <= a.rows
    ensures Dot(Identity(a.rows), a, i, j, n) == if i < n then a.At(i, j) else 0
  {
    if n > 0 {
      DotIdentityLeft(a, i, j, n - 1);
    }
  }

  lemma MulIdentityRight(a: Grid)
    requires a.WellFormed()
    ensures Mul(a, Identity(a.cols)) == Ok(a)
  {
    var g := Mul(a, Identity(a.cols)).value;
    forall i, j | a.InRange(i, j) ensures g.At(i, j) == a.At(i, j) {
      DotIdentityRight(a, i, j, a.cols);
    }
    Extensionality(g, a);
  }

  lemma MulIdentityLeft(a: Grid)
    requires a.WellFormed()
    ensures Mul(Identity(a.rows), a) == Ok(a)
  {
    var g := Mul(Identity(a.rows), a).value;
    forall i, j | a.InRange(i, j) ensures g.At(i, j) == a.At(i, j) {
      DotIdentityLeft(a, i, j, a.rows);
    }
    Extensionality(g, a);
  }

  /** Element (i, j), or 0 off the grid: a total view for use in sums. */
  function Get(g: Grid, i: int, j: int): int
  {
    if g.WellFormed() && g.InRange(i, j) then g.At(i, j) else 0
  }

  /** The terms of the dot product of row i of `a` and column j of `b`. */
  function DotTerms(a: Grid, b: Grid, i: int, j: int): int -> int
  {
    k => Get(a, i, k) * Get(b, k, j)
  }

  /** The accumulation loop computes the sum of the dot product's terms. */
  lemma {:induction false} DotIsSum(a: Grid, b: Grid, i: int, j: int, n: int)
    requires a.WellFormed() && b.WellFormed() && a.cols == b.rows
    requires 0 <= i < a.rows && 0 <= j < b.cols && 0 <= n <= a.cols
    ensures Dot(a, b, i, j, n) == Arith.Sum(DotTerms(a, b, i, j), n)
    decreases n
  {
    if n > 0 {
      DotIsSum(a, b, i, j, n - 1);
    }
  }

  /** The products a(i, j) * b(j, k) * c(k, l) that both bracketings of a
      triple product add up, indexed by (j, k). */
  function TripleTerms(a: Grid, b: Grid, c: Grid, i: int, l: int): (int, int) -> int
  {
    (j, k) => Get(a, i, j) * Get(b, j, k) * Get(c, k, l)
  }

  /** Term k of element (i, l) of (a * b) * c is column k of the triple
      products, totalled. */
  lemma LeftTerm(a: Grid, b: Grid, c: Grid, i: int, l: int, k: int)
    requires a.WellFormed() && b.WellFormed() && c.WellFormed()
    requires a.cols == b.rows && b.cols == c.rows
    requires 0 <= i < a.rows && 0 <= l < c.cols && 0 <= k < b.cols
    ensures Mul(a, b).Ok?
    ensures DotTerms(Mul(a, b).value, c, i, l)(k) == Arith.ColumnTotals(TripleTerms(a, b, c, i, l), a.cols)(k)
  {
    var t := TripleTerms(a, b, c, i, l);
    DotIsSum(a, b, i, k, a.cols);
    forall j | 0 <= j < a.cols ensures Arith.Column(t, k)(j) == DotTerms(a, b, i, k)(j) * Get(c, k, l) {
    }
    Arith.SumScaleRight(DotTerms(a, b, i, k), Arith.Column(t, k), Get(c, k, l), a.cols);
  }

  /** Term j of element (i, l) of a * (b * c) is row j of the triple
      products, totalled. */
  lemma RightTerm(a: Grid, b: Grid, c: Grid, i: int, l: int, j: int)
    requires a.WellFormed() && b.WellFormed() && c.WellFormed()
    requires a.cols == b.rows && b.cols == c.rows
    requires 0 <= i < a.rows && 0 <= l < c.cols && 0 <= j < a.cols
    ensures Mul(b, c).Ok?
    ensures DotTerms(a, Mul(b, c).value, i, l)(j) == Arith.RowTotals(TripleTerms(a, b, c, i, l), b.cols)(j)
  {
    var t := TripleTerms(a, b, c, i, l);
    DotIsSum(b, c, j, l, b.cols);
    forall k | 0 <= k < b.cols ensures Arith.Row(t, j)(k) == Get(a, i, j) * DotTerms(b, c, j, l)(k) {
      Arith.MulAssociates(Get(a, i, j), Get(b, j, k), Get(c, k, l));
    }
    Arith.SumScaleLeft(DotTerms(b, c, j, l), Arith.Row(t, j), Get(a, i, j), b.cols);
  }

  /** Element (i, l) of (a * b) * c and of a * (b * c) agree: both add up
      the same table of triple products, by columns and by rows. */
  lemma MulAssociativeAt(a: Grid, b: Grid, c: Grid, i: int, l: int)
    requires a.WellFormed() && b.WellFormed() && c.WellFormed()
    requires a.cols == b.rows && b.cols == c.rows
    requires 0 <= i < a.rows && 0 <= l < c.cols
    ensures Mul(a, b).Ok? && Mul(b, c).Ok?
    ensures Dot(Mul(a, b).value, c, i, l, b.cols) == Dot(a, Mul(b, c).value, i, l, a.cols)
  {
    var ab, bc := Mul(a, b).value, Mul(b, c).value;
    var t := TripleTerms(a, b, c, i, l);
    forall k | 0 <= k < b.cols ensures DotTerms(ab, c, i, l)(k) == Arith.ColumnTotals(t, a.cols)(k) {
      LeftTerm(a, b, c, i, l, k);
    }
    DotIsSum(ab, c, i, l, b.cols);
    Arith.SumExt(DotTerms(ab, c, i, l), Arith.ColumnTotals(t, a.cols), b.cols);
    forall j | 0 <= j < a.cols ensures DotTerms(a, bc, i, l)(j) == Arith.RowTotals(t, b.cols)(j) {
      RightTerm(a, b, c, i, l, j);
    }
    DotIsSum(a, bc, i, l, a.cols);
    Arith.SumExt(DotTerms(a, bc, i, l), Arith.RowTotals(t, b.cols), a.cols);
    Arith.SumSwap(t, b.cols, a.cols);
  }

  /** Matrix multiplication is associative whenever the shapes fit. */
  lemma MulAssociative(a: Grid, b: Grid, c: Grid)
    requires a.WellFormed() && b.WellFormed() && c.WellFormed()
    requires a.cols == b.rows && b.cols == c.rows
    ensures Mul(a, b).Ok? && Mul(b, c).Ok?
    ensures Mul(Mul(a, b).value, c) == Mul(a, Mul(b, c).value)
  {
    var left, right := Mul(Mul(a, b).value, c).value, Mul(a, Mul(b, c).value).value;
    forall i, l | left.InRange(i, l) ensures left.At(i, l) == right.At(i, l) {
      MulAssociativeAt(a, b, c, i, l);
    }
    Extensionality(left, right);
  }

  /** `<` and `>` are converses, and of `<`, `>` and "same element count"
      exactly one holds. */
  lemma SizeOrder(a: Grid, b: Grid)
    ensures Less(a, b) <==> Greater(b, a)
    ensures Less(a, b) <==> !Greater(a, b) && a.Size() != b.Size()
    ensures !(Less(a, b) && Greater(a, b))
  {
  }

  /** Equal matrices are neither smaller nor larger than each other. */
  lemma EqualNotOrdered(a: Grid, b: Grid)
    requires Equal(a, b)
    ensures !Less(a, b) && !Greater(a, b)
  {
  }

  /** An r-by-c and a c-by-r matrix (r != c) are not equal, yet neither is
      smaller nor larger: the order looks only at element counts. */
  lemma TransposedShapesUnordered(a: Grid, b: Grid)
    requires a.rows == b.cols && a.cols == b.rows && a.rows != a.cols
    ensures !Equal(a, b) && !Less(a, b) && !Greater(a, b)
  {
  }

  /** The 3-by-3 matrix with diagonal 1, 2, 3, built by three setElement
      calls on zeros. */
  function Diagonal123(): (g: Grid)
    ensures g.WellFormed() && g.rows == 3 && g.cols == 3
  {
    Update(Update(Update(Filled(3, 3, 0), 0, 0, 1), 1, 1, 2), 2, 2, 3)
  }

  /** Adding that matrix to itself doubles its diagonal to 2, 4, 6, leaves
      the other elements zero, and the sum does not compare equal to it. */
  lemma DiagonalDoubled()
    ensures Add(Diagonal123(), Diagonal123()).Ok?
    ensures Add(Diagonal123(), Diagonal123()).value ==
              Update(Update(Update(Filled(3, 3, 0), 0, 0, 2), 1, 1, 4), 2, 2, 6)
    ensures !Equal(Diagonal123(), Add(Diagonal123(), Diagonal123()).value)
  {
    var d := Diagonal123();
    var s := Add(d, d).value;
    var e := Update(Update(Update(Filled(3, 3, 0), 0, 0, 2), 1, 1, 4), 2, 2, 6);
    forall i, j | s.InRange(i, j) ensures s.At(i, j) == e.At(i, j) {
    }
    Extensionality(s, e);
    assert s.At(0, 0) != d.At(0, 0);
  }

  /** The product of the 3-by-2 matrix of fives and the 2-by-3 matrix of
      threes is the 3-by-3 matrix whose every element is 5 * 3 + 5 * 3. */
  lemma FilledProduct()
    ensures Mul(Filled(3, 2, 5), Filled(2, 3, 3)) == Ok(Filled(3, 3, 30))
  {
    var a, b := Filled(3, 2, 5), Filled(2, 3, 3);
    var p, e := Mul(a, b).value, Filled(3, 3, 30);
    forall i, j | p.InRange(i, j) ensures p.At(i, j) == e.At(i, j) {
      assert Dot(a, b, i, j, 2) == Dot(a, b, i, j, 1) + a.At(i, 1) * b.At(1, j);
      assert Dot(a, b, i, j, 1) == a.At(i, 0) * b.At(0, j);
    }
    Extensionality(p, e);
  }
}
