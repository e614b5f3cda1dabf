# Laba3 in Dafny: a dense integer matrix and a validated calendar date

This project models the two classes of the Laba3 repository and proves
properties of the model.

- `Matrix` (Task3Laba3.cpp) is a dense integer matrix. It owns one row-major
  buffer of `rows * cols` elements, and element (i, j) sits at offset
  `i * cols + j`. It has four constructors, a deep-copying assignment that
  checks for self-assignment, and bounds-checked `setElement` / `getElement`
  with a sticky `errorState` code. It also has `+`, `-` and `*`, which throw
  on a shape mismatch, `==` (shape, then every element), `<` and `>` (element
  count only), and a static count of live objects.
- `Date` (Task1Laba3.cpp) is a day/month/year triple. The Gregorian
  leap-year rule and the month lengths decide whether a date is valid. The
  constructor and the three setters reject an invalid result, so every
  `Date` always holds a valid date.

Files:

- `results.dfy` (module `Results`): `Result<T, E>`, which is either the
  value built or the reason the source would throw.
- `arith.dfy` (module `Arith`): shared integer facts. It covers Euclidean
  division, the row-major offset arithmetic, and finite sums, including
  exchanging the order of a double sum.
- `calendar.dfy` (module `Calendar`): `IsLeapYear`, `DaysInMonth` and
  `IsValidDate` as functions, lemmas about them, and the class `Date` with
  its invariant `Valid()`.
- `grid.dfy` (module `Grids`): the value of a matrix (`Grid`: shape plus
  buffer) and each operator as a function on grids. `Add`, `Sub` and `Mul`
  return `Err(ShapeMismatch)` where the source throws.
- `grid_algebra.dfy` (module `GridAlgebra`): the algebra the operators obey.
  Equality is element-wise, `+` is commutative and associative, `-` undoes
  `+`, the identity is neutral for `*`, `*` is associative, and `<` / `>`
  look only at element counts.
- `matrix.dfy` (module `Matrices`): the class `Matrix` over an `array<int>`,
  and the class `Registry`, which stands for the static `objectCount`. Each
  method is proved against the functions of `Grids`. For example, `Times`
  ensures `Mul(Value(), other.Value()) == Ok(r.value.Value())`.

Modelling choices:

- Exceptions become result values. Matrix arithmetic returns
  `Result<Matrix, Error>`, and a failure creates no matrix and leaves the
  counter alone. `Date.Create` returns `Result<Date, DateError>`. The setters
  return `Calendar.Outcome`, which is `Fail` with the field's error tag, and
  a failed setter leaves the object unchanged.
- Dafny has no static mutable fields and no destructors. So the live-object
  counter is an explicit `Registry` object, which every constructor takes.
  `Matrix.Release` plays the destructor. A ghost set `live` records the
  matrices constructed and not yet released, and `Registry.Valid()` keeps
  `count == |live|`.
- C++ `%` truncates toward zero. `Calendar.CRem` models it, and
  `CRemZero` shows that it agrees with Dafny's Euclidean `%` on
  divisibility. So the leap-year rule holds for negative years too.
- Integers are unbounded. C++ `int` overflow in `rows * cols` and in the
  arithmetic is undefined behaviour in the source, and it is not modelled.

- `errorState` is sticky. A successful `setElement` or `getElement` leaves
  it as it was (Task3Laba3.cpp:66-81), and `SetElement` and `GetElement`
  do the same. Only the constructors set it to 0. So a matrix made by `+`,
  `-` or `*` starts with 0.
- The C++ default arguments are kept as Dafny default parameter values:
  `Rectangular`'s `value` and `SetElement`'s `v` default to 0.

## Model

| member | source | states |
|---|---|---|
| Calendar.CRem | Task1Laba3.cpp:41 | C++ remainder: lies strictly between -b and b and takes the sign of the dividend |
| Calendar.CRemZero | Task1Laba3.cpp:41 | a truncating remainder is zero exactly when the Euclidean remainder is zero |
| Calendar.LeapYearRule | Task1Laba3.cpp:38-42 | isLeapYear(y) iff (y divisible by 4 and not by 100) or divisible by 400, for every integer y |
| Calendar.LeapYearPeriod | Task1Laba3.cpp:38-42 | the leap-year rule repeats every 400 years |
| Calendar.DaysInMonth | Task1Laba3.cpp:26-35 | result is 28..31; 30 exactly for months 4, 6, 9, 11; below 30 exactly for month 2, where it is 29 iff the year is a leap year; 31 for every other m |
| Calendar.DaysInMonthYearIndependent | Task1Laba3.cpp:26-35 | outside February the month length does not depend on the year |
| Calendar.DaysInFirstMonths | Task1Laba3.cpp:26-35 | the first k months have between 28k and 31k days |
| Calendar.DaysInYear | Task1Laba3.cpp:26-35 | the twelve month lengths add up to 366 in a leap year and 365 otherwise |
| Calendar.ValidDateRanges | Task1Laba3.cpp:15-23 | a valid date has day 1..31 and month 1..12; day 31 is valid exactly in months 1, 3, 5, 7, 8, 10, 12; day 30 in every month but February |
| Calendar.LeapDay | Task1Laba3.cpp:15-35 | February 29 is a valid date exactly in leap years |
| Calendar.ChangeOfYear | Task1Laba3.cpp:73-78 | changing only the year of a valid date keeps it valid unless it is February 29 and the new year is not a leap year |
| Calendar.Date.constructor | Task1Laba3.cpp:46 | the default date is 1/1/2000 and satisfies the invariant |
| Calendar.Date.Create | Task1Laba3.cpp:49-56 | rejected with InvalidDate exactly when the triple is invalid; otherwise a fresh valid date holding exactly d, m, y |
| Calendar.Date.SetDay | Task1Laba3.cpp:59-64 | succeeds iff (d, month, year) is valid; success changes only the day, failure (InvalidDay) changes nothing; the invariant is preserved |
| Calendar.Date.SetMonth | Task1Laba3.cpp:66-71 | succeeds iff (day, m, year) is valid; success changes only the month, failure (InvalidMonth) changes nothing; the invariant is preserved |
| Calendar.Date.SetYear | Task1Laba3.cpp:73-78 | succeeds iff (day, month, y) is valid; success changes only the year, failure (InvalidYear) changes nothing; the invariant is preserved |
| Calendar.Date.GetDay | Task1Laba3.cpp:81 | returns the stored day, which lies within its month's length |
| Calendar.Date.GetMonth | Task1Laba3.cpp:82 | returns the stored month, which is 1..12 |
| Calendar.Date.GetYear | Task1Laba3.cpp:83 | returns the stored year |
| Calendar.DateScenario | Task1Laba3.cpp:101-128 | 5/1/2019 is accepted, setDay(15), setMonth(12) and setYear(2022) all succeed and leave 15/12/2022, and 31/2/2023 is rejected with InvalidDate |
| Calendar.Date.LongMonthName | Task1Laba3.cpp:87-89 | for a valid date, `month - 1` indexes the twelve-entry month-name table within bounds |
| Grids.Filled | Task3Laba3.cpp:26-32 | an n-by-m well-formed grid whose every element is v |
| Grids.Update | Task3Laba3.cpp:66-72 | same shape; element (i, j) becomes v and every other element keeps its value |
| Grids.Add | Task3Laba3.cpp:94-104 | fails with ShapeMismatch exactly when rows or cols differ; otherwise the same shape with a(i,j) + b(i,j) at every position |
| Grids.Sub | Task3Laba3.cpp:107-117 | fails with ShapeMismatch exactly when rows or cols differ; otherwise the same shape with a(i,j) - b(i,j) at every position |
| Grids.Mul | Task3Laba3.cpp:120-134 | fails with ShapeMismatch exactly when a.cols != b.rows; otherwise an a.rows-by-b.cols grid whose (i, j) is the dot product of row i of a and column j of b |
| GridAlgebra.Extensionality | Task3Laba3.cpp:5-8 | two well-formed grids of one shape that agree at every (i, j) are equal, so the row-major layout covers every offset |
| GridAlgebra.EqualMeansSameElements | Task3Laba3.cpp:137-148 | `==` holds iff the shapes agree and every element (i, j) agrees |
| GridAlgebra.AddCommutative | Task3Laba3.cpp:94-104 | a + b and b + a give the same result, including the same failure |
| GridAlgebra.AddAssociative | Task3Laba3.cpp:94-104 | (a + b) + c equals a + (b + c) for equal shapes |
| GridAlgebra.SubUndoesAdd | Task3Laba3.cpp:94-117 | (a + b) - b equals a for equal shapes |
| GridAlgebra.DotIdentityRight | Task3Laba3.cpp:126-132 | accumulating row i of a against column j of the identity yields a(i, j) once k has passed j |
| GridAlgebra.DotIdentityLeft | Task3Laba3.cpp:126-132 | accumulating row i of the identity against column j of a yields a(i, j) once k has passed i |
| GridAlgebra.MulIdentityRight | Task3Laba3.cpp:120-134 | a * I equals a |
| GridAlgebra.MulIdentityLeft | Task3Laba3.cpp:120-134 | I * a equals a |
| GridAlgebra.DotIsSum | Task3Laba3.cpp:126-132 | the accumulation from k = 0 equals the sum of the terms a(i,k) * b(k,j) |
| GridAlgebra.MulAssociativeAt | Task3Laba3.cpp:120-134 | element (i, l) of (a * b) * c equals element (i, l) of a * (b * c) |
| GridAlgebra.MulAssociative | Task3Laba3.cpp:120-134 | (a * b) * c equals a * (b * c) whenever the shapes fit |
| GridAlgebra.SizeOrder | Task3Laba3.cpp:151-158 | `<` and `>` are converses; `<` holds iff neither `>` nor equal element counts; never both |
| GridAlgebra.EqualNotOrdered | Task3Laba3.cpp:137-158 | matrices that compare `==` are neither `<` nor `>` |
| GridAlgebra.TransposedShapesUnordered | Task3Laba3.cpp:151-158 | an r-by-c and a c-by-r matrix with r != c are not `==`, and neither is `<` nor `>` the other |
| GridAlgebra.Diagonal123 | Task3Laba3.cpp:171-179 | three setElement calls on a 3-by-3 zero matrix give a well-formed 3-by-3 grid |
| GridAlgebra.DiagonalDoubled | Task3Laba3.cpp:199-215 | m1 + m1 has diagonal 2, 4, 6 and zeros elsewhere, and m1 == m5 is false |
| GridAlgebra.FilledProduct | Task3Laba3.cpp:204-208 | the 3-by-2 matrix of fives times the 2-by-3 matrix of threes is the 3-by-3 matrix of thirties |
| Matrices.Registry.constructor | Task3Laba3.cpp:167 | the counter starts at zero with no live matrices |
| Matrices.Registry.GetObjectCount | Task3Laba3.cpp:161-163 | returns the number of matrices constructed and not yet released |
| Matrices.Matrix.Default | Task3Laba3.cpp:14-17 | a 3-by-3 all-zero matrix in a fresh buffer, errorState 0; the counter rises by one |
| Matrices.Matrix.Square | Task3Laba3.cpp:20-23 | an n-by-n all-zero matrix in a fresh buffer, errorState 0; the counter rises by one |
| Matrices.Matrix.Rectangular | Task3Laba3.cpp:26-32 | an n-by-m matrix with every element equal to value (0 by default), in a fresh buffer, errorState 0; the counter rises by one |
| Matrices.Matrix.Copy | Task3Laba3.cpp:35-41 | the same shape and elements as the source in a freshly allocated buffer, errorState 0; the counter rises by one |
| Matrices.Matrix.Release | Task3Laba3.cpp:60-63 | the matrix leaves the live set and the counter falls by exactly one |
| Matrices.Matrix.Assign | Task3Laba3.cpp:44-57 | self-assignment keeps the buffer; otherwise a fresh buffer holding the source's shape and elements; the source and errorState are unchanged; the counter is untouched |
| Matrices.Matrix.SetElement | Task3Laba3.cpp:66-72 | in range, the value becomes Update(old value, i, j, v) (v is 0 by default) and errorState is kept; out of range, nothing is written and errorState becomes 1 |
| Matrices.Matrix.GetElement | Task3Laba3.cpp:75-81 | in range, returns element (i, j) and keeps errorState; out of range, returns -1 and sets errorState to 2; no element changes |
| Matrices.Matrix.Plus | Task3Laba3.cpp:94-104 | ShapeMismatch exactly when the shapes differ, with no new matrix; otherwise one fresh matrix with errorState 0 whose value is Add of the operands; the counter rises by one |
| Matrices.Matrix.Minus | Task3Laba3.cpp:107-117 | ShapeMismatch exactly when the shapes differ, with no new matrix; otherwise one fresh matrix with errorState 0 whose value is Sub of the operands; the counter rises by one |
| Matrices.Matrix.AccumulateCell | Task3Laba3.cpp:128-130 | the innermost loop adds the full dot product to one result element and leaves the others alone |
| Matrices.Matrix.ComputeRow | Task3Laba3.cpp:127-131 | the two inner loops fill row i of the result with its product elements and leave the other rows alone |
| Matrices.Matrix.Times | Task3Laba3.cpp:120-134 | ShapeMismatch exactly when cols != other.rows, with no new matrix; otherwise one fresh matrix with errorState 0 whose value is Mul of the operands; the counter rises by one |
| Matrices.Matrix.Equals | Task3Laba3.cpp:137-148 | the early-exit loop returns exactly Equal of the two values: same shape and same elements |
| Matrices.Matrix.IsLess | Task3Laba3.cpp:151-153 | true iff this buffer holds fewer elements than the other's |
| Matrices.Matrix.IsGreater | Task3Laba3.cpp:156-158 | true iff this buffer holds more elements than the other's |
| Matrices.DiagonalScenario | Task3Laba3.cpp:198-215 | m1 with diagonal 1, 2, 3 and m5 = m1 + m1 create exactly two matrices; m5 is m1's value doubled and m1 == m5 is false |
| Matrices.ProductScenario | Task3Laba3.cpp:204-208 | m3 (3-by-2 of fives) times m4 (2-by-3 of threes) succeeds and m6 holds 30 everywhere; three matrices are created |
| Matrices.Demonstration | Task3Laba3.cpp:169-220 | the program creates six matrices, none of its arithmetic fails, m1 == m5 is false, and the reported object count is six above the starting count |
| Matrices.ScopedCopies | Task3Laba3.cpp:60-63 | constructing and then destroying a matrix and its copy leaves the counter and the live set as they were |

## Left out

- The print routines `Matrix::print`, `Date::printLongFormat` and
  `Date::printShortFormat`: they are stream output. Only the bounds safety
  of the month-name lookup is modelled, as `Date.LongMonthName`.
- The printing in both `main` functions. Their computations are modelled
  as `Calendar.DateScenario` and `Matrices.Demonstration`.
- Releasing buffers (`delete[]`) and destructor timing: Dafny has garbage
  collection and no destructors. `Release` must be called explicitly, and a
  released matrix is not prevented from being used again. The model
  captures buffer ownership only as freshness (`fresh(data)`) of every
  constructed or assigned buffer.
- C++ `int` overflow in `rows * cols`, in `+`, `-` and in the multiply
  accumulation: it is undefined behaviour in the source, and here
  integers are unbounded.
- `Square` and `Rectangular` do not model non-positive sizes; they require
  `n >= 1` and `m >= 1`. In the source `Matrix(0)` is an empty 0-by-0 matrix.
  Every element access on it is out of range, but `+` and `==` work on it.
  `Matrix(-2)` allocates 4 elements for a matrix of negative shape.
  `Matrix(n, m, v)` with `n * m < 0` makes `new[]` throw
  `std::bad_array_new_length`.
- The exception objects (`std::invalid_argument`) and their message texts:
  each throwing site becomes an error tag in a result value instead.
- Concurrent access to the counter: the source is single-threaded.
