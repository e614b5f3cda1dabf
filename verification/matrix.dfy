/**
 * The class `Matrix` of Task3Laba3.cpp: a dense integer matrix owning one
 * row-major buffer of rows * cols elements, with a sticky error code for
 * failed element accesses and a process-wide count of live instances.
 */
module Matrices {

  import Arith
  import opened Grids
  import opened Results
  import GridAlgebra

  /** The static member `objectCount`. Dafny has no static mutable state and
      no destructors, so the counter is an object that every constructor and
      `Release` (the destructor) updates; `live` is the set of matrices that
      were constructed and not yet released. */
  class Registry {
    var count: int
    ghost var live: set<Matrix>

    /** The counter equals the number of live matrices. */
    ghost predicate Valid()
      reads this
    {
      count == |live|
    }

    /** The counter's static initialisation to zero. */
    constructor ()
      ensures Valid() && live == {} && count == 0
    {
      count := 0;
      live := {};
    }

    /** `getObjectCount`: the number of matrices currently alive. */
    method GetObjectCount() returns (n: int)
      requires Valid()
      ensures n == |live|
    {
      n := count;
    }
  }

  class Matrix {
    var data: array<int>
    var rows: int
    var cols: int
    var errorState: int

    /** Positive shape, and a buffer of exactly rows * cols elements. */
    ghost predicate Valid()
      reads this
    {
      1 <= rows && 1 <= cols && data.Length == rows * cols
    }

    /** The matrix as a value: its shape and the contents of its buffer. */
    ghost function Value(): (g: Grid)
      reads this, data
      requires Valid()
      ensures g.WellFormed() && g.rows == rows && g.cols == cols
    {
      Grid(rows, cols, data[..])
    }

    /** `Matrix()`: a 3-by-3 matrix of zeros. */
    constructor Default(reg: Registry)
      requires reg.Valid()
      modifies reg
      ensures Valid() && fresh(data) && errorState == 0
      ensures Value() == Filled(3, 3, 0)
      ensures reg.Valid() && reg.live == old(reg.live) + {this} && reg.count == old(reg.count) + 1
    {
      rows, cols, errorState := 3, 3, 0;
      data := new int[3 * 3](_ => 0);
      new;
      reg.live := reg.live + {this};
      reg.count := reg.count + 1;
    }

    /** `Matrix(n)`: an n-by-n matrix of zeros. */
    constructor Square(n: int, reg: Registry)
      requires 1 <= n
      requires reg.Valid()
      modifies reg
      ensures Valid() && fresh(data) && errorState == 0
      ensures Value() == Filled(n, n, 0)
      ensures reg.Valid() && reg.live == old(reg.live) + {this} && reg.count == old(reg.count) + 1
    {
      rows, cols, errorState := n, n, 0;
      data := new int[n * n](_ => 0);
      new;
      reg.live := reg.live + {this};
      reg.count := reg.count + 1;
    }

    /** `Matrix(n, m, value)`: an n-by-m matrix filled element by element
        with `value`, which defaults to 0. */
    constructor Rectangular(n: int, m: int, reg: Registry, value: int := 0)
      requires 1 <= n && 1 <= m
      requires reg.Valid()
      modifies reg
      ensures Valid() && fresh(data) && errorState == 0
      ensures Value() == Filled(n, m, value)
      ensures reg.Valid() && reg.live == old(reg.live) + {this} && reg.count == old(reg.count) + 1
    {
      var buf := new int[n * m];
      for k := 0 to n * m
        modifies buf
        invariant forall t :: 0 <= t < k ==> buf[t] == value
      {
        buf[k] := value;
      }
      rows, cols, errorState, data := n, m, 0, buf;
      new;
      reg.live := reg.live + {this};
      reg.count := reg.count + 1;
    }

    /** The copy constructor: the same shape and elements in a buffer of its
        own. */
    constructor Copy(other: Matrix, reg: Registry)
      requires other.Valid()
      requires reg.Valid()
      modifies reg
      ensures Valid() && fresh(data) && errorState == 0
      ensures Value() == other.Value()
      ensures reg.Valid() && reg.live == old(reg.live) + {this} && reg.count == old(reg.count) + 1
    {
      var n := other.rows * other.cols;
      var buf := new int[n];
      for k := 0 to n
        modifies buf
        invariant forall t :: 0 <= t < k ==> buf[t] == other.data[t]
      {
        buf[k] := other.data[k];
      }
      rows, cols, errorState, data := other.rows, other.cols, 0, buf;
      new;
      assert data[..] == other.data[..];
      reg.live := reg.live + {this};
      reg.count := reg.count + 1;
    }

    /** The destructor: the matrix leaves the live set and the counter drops
        by one. */
    method Release(reg: Registry)
      requires reg.Valid() && this in reg.live
      modifies reg
      ensures reg.Valid() && reg.live == old(reg.live) - {this} && reg.count == old(reg.count) - 1
    {
      reg.live := reg.live - {this};
      reg.count := reg.count - 1;
    }

    /** `operator=`: self-assignment changes nothing; otherwise this matrix
        takes the other's shape and a fresh copy of its elements, and the
        other matrix is untouched. The counter is not involved. */
    method Assign(other: Matrix)
      requires Valid() && other.Valid()
      modifies this
      ensures Valid() && Value() == old(other.Value())
      ensures this == other ==> data == old(data)
      ensures this != other ==> fresh(data)
      ensures errorState == old(errorState)
      ensures other.data == old(other.data) && other.data[..] == old(other.data[..])
    {
      if this == other {
        return;
      }
      var n := other.rows * other.cols;
      var buf := new int[n];
      for k := 0 to n
        modifies buf
        invariant forall t :: 0 <= t < k ==> buf[t] == other.data[t]
      {
        buf[k] := other.data[k];
      }
      rows, cols, data := other.rows, other.cols, buf;
      assert data[..] == other.data[..];
    }

    /** `setElement`: in range, writes `v` at (i, j) and nothing else;
        otherwise writes nothing and records error code 1. The value
        defaults to 0. */
    method SetElement(i: int, j: int, v: int := 0)
      requires Valid()
      modifies this`errorState, data
      ensures Valid()
      ensures old(Value()).InRange(i, j) ==> Value() == Update(old(Value()), i, j, v) && errorState == old(errorState)
      ensures !old(Value()).InRange(i, j) ==> Value() == old(Value()) && errorState == 1
    {
      if i < 0 || i >= rows || j < 0 || j >= cols {
        errorState := 1;
        return;
      }
      Arith.OffsetInRange(i, j, rows, cols);
      data[i * cols + j] := v;
    }

    /** `getElement`: in range, the element at (i, j); otherwise -1, with
        error code 2 recorded. No element changes. */
    method GetElement(i: int, j: int) returns (v: int)
      requires Valid()
      modifies this`errorState
      ensures Valid()
      ensures Value().InRange(i, j) ==> v == Value().At(i, j) && errorState == old(errorState)
      ensures !Value().InRange(i, j) ==> v == -1 && errorState == 2
    {
      if i < 0 || i >= rows || j < 0 || j >= cols {
        errorState := 2;
        return -1;
      }
      Arith.OffsetInRange(i, j, rows, cols);
      v := data[i * cols + j];
    }

    /** `operator+`: a new matrix holding the element-wise sum, or
        ShapeMismatch (and no new matrix) when the shapes differ. */
    method Plus(other: Matrix, reg: Registry) returns (r: Result<Matrix, Error>)
      requires Valid() && other.Valid() && reg.Valid()
      modifies reg
      ensures reg.Valid()
      ensures r.Err? <==> rows != other.rows || cols != other.cols
      ensures r.Err? ==> reg.live == old(reg.live) && reg.count == old(reg.count)
      ensures r.Ok? ==> fresh(r.value) && fresh(r.value.data) && r.value.Valid() && r.value.errorState == 0
      ensures r.Ok? ==> Add(Value(), other.Value()) == Ok(r.value.Value())
      ensures r.Ok? ==> reg.live == old(reg.live) + {r.value} && reg.count == old(reg.count) + 1
    {
      if rows != other.rows || cols != other.cols {
        return Err(ShapeMismatch);
      }
      var result := new Matrix.Rectangular(rows, cols, reg);
      var buf := result.data;
      for k := 0 to rows * cols
        modifies buf
        invariant forall t :: 0 <= t < k ==> buf[t] == data[t] + other.data[t]
      {
        buf[k] := data[k] + other.data[k];
      }
      assert buf[..] == Add(Value(), other.Value()).value.cells;
      r := Ok(result);
    }

    /** `operator-`: a new matrix holding the element-wise difference, or
        ShapeMismatch (and no new matrix) when the shapes differ. */
    method Minus(other: Matrix, reg: Registry) returns (r: Result<Matrix, Error>)
      requires Valid() && other.Valid() && reg.Valid()
      modifies reg
      ensures reg.Valid()
      ensures r.Err? <==> rows != other.rows || cols != other.cols
      ensures r.Err? ==> reg.live == old(reg.live) && reg.count == old(reg.count)
      ensures r.Ok? ==> fresh(r.value) && fresh(r.value.data) && r.value.Valid() && r.value.errorState == 0
      ensures r.Ok? ==> Sub(Value(), other.Value()) == Ok(r.value.Value())
      ensures r.Ok? ==> reg.live == old(reg.live) + {r.value} && reg.count == old(reg.count) + 1
    {
      if rows != other.rows || cols != other.cols {
        return Err(ShapeMismatch);
      }
      var result := new Matrix.Rectangular(rows, cols, reg);
      var buf := result.data;
      for k := 0 to rows * cols
        modifies buf
        invariant forall t :: 0 <= t < k ==> buf[t] == data[t] - other.data[t]
      {
        buf[k] := data[k] - other.data[k];
      }
      assert buf[..] == Sub(Value(), other.Value()).value.cells;
      r := Ok(result);
    }

    /** The innermost loop of `operator*`: adds to buf[q], term by term
        from k = 0, the dot product of row i of this matrix and column j of
        `other`; no other element of `buf` changes. */
    method AccumulateCell(other: Matrix, buf: array<int>, q: int, i: int, j: int)
      requires Valid() && other.Valid() && cols == other.rows
      requires 0 <= i < rows && 0 <= j < other.cols && 0 <= q < buf.Length
      requires buf != data && buf != other.data
      modifies buf
      ensures buf[q] == old(buf[q]) + Dot(Value(), other.Value(), i, j, cols)
      ensures forall p :: 0 <= p < buf.Length && p != q ==> buf[p] == old(buf[p])
    {
      ghost var a, b := Value(), other.Value();
      var c := other.cols;
      for k := 0 to cols
        invariant buf[q] == old(buf[q]) + Dot(a, b, i, j, k)
        invariant forall p :: 0 <= p < buf.Length && p != q ==> buf[p] == old(buf[p])
      {
        Arith.OffsetInRange(i, k, rows, cols);
        Arith.OffsetInRange(k, j, cols, c);
        buf[q] := buf[q] + data[i * cols + k] * other.data[k * c + j];
      }
    }

    /** The two inner loops of `operator*` for row i: every element of row
        i of the result, stored from offset `start` on, accumulated from
        zero; no other element of `buf` changes. */
    method ComputeRow(other: Matrix, buf: array<int>, i: int, start: int)
      requires Valid() && other.Valid() && cols == other.rows
      requires buf.Length == rows * other.cols && buf != data && buf != other.data
      requires 0 <= i < rows && start == i * other.cols && start + other.cols <= buf.Length
      requires forall p :: start <= p < start + other.cols ==> buf[p] == 0
      modifies buf
      ensures forall p :: start <= p < start + other.cols ==> buf[p] == ProductCell(Value(), other.Value(), p)
      ensures forall p :: 0 <= p < buf.Length && !(start <= p < start + other.cols) ==> buf[p] == old(buf[p])
    {
      ghost var a, b := Value(), other.Value();
      var c := other.cols;
      Arith.OffsetInRange(i, c - 1, rows, c);
      for j := 0 to c
        invariant forall p :: start <= p < start + j ==> buf[p] == ProductCell(a, b, p)
        invariant forall p :: 0 <= p < buf.Length && !(start <= p < start + j) ==> buf[p] == old(buf[p])
      {
        Arith.OffsetInRange(i, j, rows, c);
        Arith.OffsetSplitAt(i, j, c);
        AccumulateCell(other, buf, start + j, i, j);
      }
    }

    /** `operator*`: a new rows-by-other.cols matrix, zero-initialised and
        accumulated by the triple loop, or ShapeMismatch (and no new matrix)
        when the inner dimensions differ. */
    method Times(other: Matrix, reg: Registry) returns (r: Result<Matrix, Error>)
      requires Valid() && other.Valid() && reg.Valid()
      modifies reg
      ensures reg.Valid()
      ensures r.Err? <==> cols != other.rows
      ensures r.Err? ==> reg.live == old(reg.live) && reg.count == old(reg.count)
      ensures r.Ok? ==> fresh(r.value) && fresh(r.value.data) && r.value.Valid() && r.value.errorState == 0
      ensures r.Ok? ==> Mul(Value(), other.Value()) == Ok(r.value.Value())
      ensures r.Ok? ==> reg.live == old(reg.live) + {r.value} && reg.count == old(reg.count) + 1
    {
      if cols != other.rows {
        return Err(ShapeMismatch);
      }
      ghost var a, b := Value(), other.Value();
      var c := other.cols;
      var result := new Matrix.Rectangular(rows, c, reg, 0);
      var buf := result.data;
      var start := 0;
      for i := 0 to rows
        modifies buf
        invariant start == i * c && start <= buf.Length
        invariant forall p :: 0 <= p < start ==> buf[p] == ProductCell(a, b, p)
        invariant forall p :: start <= p < buf.Length ==> buf[p] == 0
      {
        Arith.OffsetInRange(i, c - 1, rows, c);
        ComputeRow(other, buf, i, start);
        start := start + c;
      }
      assert buf[..] == Mul(a, b).value.cells;
      r := Ok(result);
    }

    /** `operator==`: false on a shape mismatch, otherwise true exactly when
        every element matches; the loop stops at the first difference. */
    method Equals(other: Matrix) returns (eq: bool)
      requires Valid() && other.Valid()
      ensures eq == Equal(Value(), other.Value())
    {
      if rows != other.rows || cols != other.cols {
        return false;
      }
      for k := 0 to rows * cols
        invariant forall t :: 0 <= t < k ==> data[t] == other.data[t]
      {
        if data[k] != other.data[k] {
          return false;
        }
      }
      assert data[..] == other.data[..];
      return true;
    }

    /** `operator<`: fewer elements than `other`, the shapes aside. */
    predicate IsLess(other: Matrix)
      reads this, other, data, other.data
      requires Valid() && other.Valid()
      ensures IsLess(other) <==> data.Length < other.data.Length
      ensures IsLess(other) == Less(Value(), other.Value())
    {
      rows * cols < other.rows * other.cols
    }

    /** `operator>`: more elements than `other`, the shapes aside. */
    predicate IsGreater(other: Matrix)
      reads this, other, data, other.data
      requires Valid() && other.Valid()
      ensures IsGreater(other) <==> data.Length > other.data.Length
      ensures IsGreater(other) == Greater(Value(), other.Value())
    {
      rows * cols > other.rows * other.cols
    }
  }

  /** The first computations of the demonstration program: a 3-by-3 zero
      matrix m1 is given the diagonal 1, 2, 3 and added to itself, and the
      sum m5 is compared with it. Two matrices are created and they compare
      unequal. */
  method DiagonalScenario(reg: Registry) returns (m1: Matrix, m5: Matrix, equal: bool)
    requires reg.Valid()
    modifies reg
    ensures reg.Valid() && reg.count == old(reg.count) + 2 && reg.live == old(reg.live) + {m1, m5}
    ensures fresh(m1) && fresh(m1.data)
    ensures m1.Valid() && m1.Value() == GridAlgebra.Diagonal123()
    ensures m5.Valid() && m5.Value() == Add(m1.Value(), m1.Value()).value
    ensures !equal
  {
    m1 := new Matrix.Default(reg);
    m1.SetElement(0, 0, 1);
    m1.SetElement(1, 1, 2);
    m1.SetElement(2, 2, 3);
    var sum := m1.Plus(m1, reg);
    m5 := sum.value;
    equal := m1.Equals(m5);
    GridAlgebra.DiagonalDoubled();
  }

  /** The product computation of the demonstration program: m3 is the
      3-by-2 matrix of fives, m4 the 2-by-3 matrix of threes, and
      m6 = m3 * m4 succeeds with 30 everywhere. Three matrices are created. */
  method ProductScenario(reg: Registry) returns (m6: Matrix)
    requires reg.Valid()
    modifies reg
    ensures reg.Valid() && reg.count == old(reg.count) + 3
    ensures m6.Valid() && m6.Value() == Filled(3, 3, 30)
  {
    var m3 := new Matrix.Rectangular(3, 2, reg, 5);
    var m4 := new Matrix.Rectangular(2, 3, reg, 3);
    var product := m3.Times(m4, reg);
    m6 := product.value;
    GridAlgebra.FilledProduct();
  }

  /** The whole demonstration program: m1, m2 (a 2-by-2 zero matrix), m3,
      m4, m5 = m1 + m1 and m6 = m3 * m4. None of the arithmetic fails,
      m1 == m5 is false, and the final object count is six more than at the
      start. */
  method Demonstration(reg: Registry) returns (m1: Matrix, m5: Matrix, m6: Matrix, equal: bool, total: int)
    requires reg.Valid()
    modifies reg
    ensures reg.Valid() && reg.count == old(reg.count) + 6
    ensures total == old(reg.count) + 6
    ensures m1.Valid() && m1.Value() == GridAlgebra.Diagonal123()
    ensures m5.Valid() && m5.Value() == Add(m1.Value(), m1.Value()).value
    ensures m6.Valid() && m6.Value() == Filled(3, 3, 30)
    ensures !equal
  {
    m1, m5, equal := DiagonalScenario(reg);
    var m2 := new Matrix.Square(2, reg);
    m6 := ProductScenario(reg);
    total := reg.GetObjectCount();
  }

  /** A scope that makes a matrix and a copy of it and destroys both: the
      counter and the live set end as they began. */
  method ScopedCopies(reg: Registry)
    requires reg.Valid()
    modifies reg
    ensures reg.Valid() && reg.count == old(reg.count) && reg.live == old(reg.live)
  {
    var m := new Matrix.Square(2, reg);
    var c := new Matrix.Copy(m, reg);
    c.Release(reg);
    m.Release(reg);
  }
}
