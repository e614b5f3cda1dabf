/**
 * Integer facts shared by the calendar and the matrix models: Euclidean
 * division by a positive divisor, and the row-major offset `i * c + j`.
 */
module Arith {

  /** A multiple of a positive `b` strictly between -b and b is zero. */
  lemma SmallMultiple(b: int, t: int)
    requires b > 0 && -b < b * t < b
    ensures t == 0
  {
  }

  /** Quotient and remainder are determined by any decomposition
      p == q * c + s with 0 <= s < c. */
  lemma DivModUnique(p: int, c: int, q: int, s: int)
    requires c > 0 && 0 <= s < c && p == q * c + s
    ensures p / c == q && p % c == s
  {
    assert p == c * (p / c) + p % c;
    assert c * (q - p / c) == p % c - s;
    SmallMultiple(c, q - p / c);
  }

  /** Every multiple of `b` leaves Euclidean remainder zero. */
  lemma MultipleRem(b: int, k: int)
    requires b > 0
    ensures (b * k) % b == 0
  {
    DivModUnique(b * k, b, k, 0);
  }

  /** The row-major offset of an in-range position lies in the buffer. */
  lemma OffsetInRange(i: int, j: int, r: int, c: int)
    requires 0 <= i < r && 0 <= j < c
    ensures 0 <= i * c + j < r * c
  {
    assert i * c <= (r - 1) * c;
  }

  /** Every buffer offset is the row-major offset of exactly one position. */
  lemma OffsetSplit(p: int, r: int, c: int)
    requires 1 <= c && 0 <= p < r * c
    ensures 0 <= p / c < r && 0 <= p % c < c
    ensures p == (p / c) * c + p % c
  {
  }

  /** The position of a row-major offset is recovered by `/` and `%`. */
  lemma OffsetSplitAt(i: int, j: int, c: int)
    requires 0 <= j < c
    ensures (i * c + j) / c == i && (i * c + j) % c == j
  {
    DivModUnique(i * c + j, c, i, j);
  }

  lemma MulAssociates(x: int, y: int, z: int)
    ensures x * y * z == x * (y * z)
  {
  }

  /** f(0) + f(1) + ... + f(n - 1), added from the left. */
  function Sum(f: int -> int, n: int): int
    decreases n
  {
    if n <= 0 then 0 else Sum(f, n - 1) + f(n - 1)
  }

  /** Sums of functions that agree on 0..n-1 agree. */
  lemma {:induction false} SumExt(f: int -> int, g: int -> int, n: int)
    requires forall k :: 0 <= k < n ==> f(k) == g(k)
    ensures Sum(f, n) == Sum(g, n)
    decreases n
  {
    if n > 0 {
      SumExt(f, g, n - 1);
    }
  }

  /** A sum of pointwise sums is the sum of the two sums. */
  lemma {:induction false} SumPlus(f: int -> int, g: int -> int, h: int -> int, n: int)
    requires forall k :: 0 <= k < n ==> h(k) == f(k) + g(k)
    ensures Sum(h, n) == Sum(f, n) + Sum(g, n)
    decreases n
  {
    if n > 0 {
      SumPlus(f, g, h, n - 1);
    }
  }

  /** A constant factor on the right of every term comes out of the sum. */
  lemma {:induction false} SumScaleRight(f: int -> int, g: int -> int, x: int, n: int)
    requires forall k :: 0 <= k < n ==> g(k) == f(k) * x
    ensures Sum(g, n) == Sum(f, n) * x
    decreases n
  {
    if n > 0 {
      SumScaleRight(f, g, x, n - 1);
      assert (Sum(f, n - 1) + f(n - 1)) * x == Sum(f, n - 1) * x + f(n - 1) * x;
    }
  }

  /** A constant factor on the left of every term comes out of the sum. */
  lemma {:induction false} SumScaleLeft(f: int -> int, g: int -> int, x: int, n: int)
    requires forall k :: 0 <= k < n ==> g(k) == x * f(k)
    ensures Sum(g, n) == x * Sum(f, n)
    decreases n
  {
    if n > 0 {
      SumScaleLeft(f, g, x, n - 1);
      assert x * (Sum(f, n - 1) + f(n - 1)) == x * Sum(f, n - 1) + x * f(n - 1);
    }
  }

  /** Column k of a table `t`, indexed by row. */
  function Column(t: (int, int) -> int, k: int): int -> int
  {
    j => t(j, k)
  }

  /** Row j of a table `t`, indexed by column. */
  function Row(t: (int, int) -> int, j: int): int -> int
  {
    k => t(j, k)
  }

  /** Column totals over the first m rows, indexed by column. */
  function ColumnTotals(t: (int, int) -> int, m: int): int -> int
  {
    k => Sum(Column(t, k), m)
  }

  /** Row totals over the first n columns, indexed by row. */
  function RowTotals(t: (int, int) -> int, n: int): int -> int
  {
    j => Sum(Row(t, j), n)
  }

  /** The terms of a finite double sum may be added column by column or
      row by row. */
  lemma {:induction false} SumSwap(t: (int, int) -> int, n: int, m: int)
    ensures Sum(ColumnTotals(t, m), n) == Sum(RowTotals(t, n), m)
    decreases n
  {
    if n > 0 {
      SumSwap(t, n - 1, m);
      forall j | 0 <= j < m ensures RowTotals(t, n)(j) == RowTotals(t, n - 1)(j) + Column(t, n - 1)(j) {
      }
      SumPlus(RowTotals(t, n - 1), Column(t, n - 1), RowTotals(t, n), m);
    } else {
      forall j | 0 <= j < m ensures RowTotals(t, n)(j) == 0 {
      }
      SumZero(RowTotals(t, n), m);
    }
  }

  /** A sum of zeros is zero. */
  lemma {:induction false} SumZero(f: int -> int, n: int)
    requires forall k :: 0 <= k < n ==> f(k) == 0
    ensures Sum(f, n) == 0
    decreases n
  {
    if n > 0 {
      SumZero(f, n - 1);
    }
  }
}
