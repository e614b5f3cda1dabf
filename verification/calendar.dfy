/**
 * A Gregorian calendar date that is validated on construction and on every
 * field update: the class `Date` of Task1Laba3.cpp.
 */
module Calendar {

  import Arith
  import opened Results

  /** Remainder of C++ integer division: it truncates toward zero, so its sign
      follows the dividend (unlike Dafny's Euclidean `%`). */
  function CRem(a: int, b: int): (r: int)
    requires b > 0
    ensures -b < r < b
    ensures a >= 0 ==> r >= 0
    ensures a < 0 ==> r <= 0
  {
    if a >= 0 then a % b else -((-a) % b)
  }

  /** Truncating and Euclidean remainders agree on divisibility. */
  lemma CRemZero(a: int, b: int)
    requires b > 0
    ensures CRem(a, b) == 0 <==> a % b == 0
  {
    if a < 0 {
      assert -a == b * ((-a) / b) + (-a) % b;
      assert a == b * (a / b) + a % b;
      if (-a) % b == 0 {
        assert a == b * -((-a) / b);
        Arith.MultipleRem(b, -((-a) / b));
      }
      if a % b == 0 {
        assert -a == b * -(a / b);
        Arith.MultipleRem(b, -(a / b));
      }
    }
  }

  /** The Gregorian leap-year rule, written with C++'s remainder. */
  predicate IsLeapYear(y: int)
  {
    (CRem(y, 4) == 0 && CRem(y, 100) != 0) || CRem(y, 400) == 0
  }

  /** The leap-year rule is the usual divisibility rule for every year,
      negative years included. */
  lemma LeapYearRule(y: int)
    ensures IsLeapYear(y) <==> (y % 4 == 0 && y % 100 != 0) || y % 400 == 0
  {
  }

  /** The rule repeats every 400 years. */
  lemma LeapYearPeriod(y: int)
    ensures IsLeapYear(y + 400) == IsLeapYear(y)
  {
    LeapYearRule(y);
    LeapYearRule(y + 400);
  }

  /** Number of days of month `m` in year `y`; every `m` outside 2, 4, 6, 9
      and 11 falls to the 31-day default. */
  function DaysInMonth(m: int, y: int): (r: int)
    ensures 28 <= r <= 31
    ensures r == 30 <==> m == 4 || m == 6 || m == 9 || m == 11
    ensures r < 30 <==> m == 2
    ensures m == 2 ==> (r == 29 <==> IsLeapYear(y))
  {
    if m == 4 || m == 6 || m == 9 || m == 11 then 30
    else if m == 2 then (if IsLeapYear(y) then 29 else 28)
    else 31
  }

  /** The year matters only for February. */
  lemma DaysInMonthYearIndependent(m: int, y1: int, y2: int)
    requires m != 2
    ensures DaysInMonth(m, y1) == DaysInMonth(m, y2)
  {
  }

  /** Days of the months 1..k of year `y`. */
  function DaysInFirstMonths(k: nat, y: int): (r: int)
    ensures 28 * k <= r <= 31 * k
  {
    if k == 0 then 0 else DaysInFirstMonths(k - 1, y) + DaysInMonth(k, y)
  }

  /** The twelve months add up to 365 days, or 366 in a leap year. */
  lemma {:induction false} DaysInYear(y: int)
    ensures DaysInFirstMonths(12, y) == if IsLeapYear(y) then 366 else 365
  {
    assert DaysInFirstMonths(1, y) == 31;
    assert DaysInFirstMonths(2, y) == 31 + DaysInMonth(2, y);
    assert DaysInFirstMonths(4, y) == DaysInFirstMonths(2, y) + 31 + 30;
    assert DaysInFirstMonths(6, y) == DaysInFirstMonths(4, y) + 31 + 30;
    assert DaysInFirstMonths(8, y) == DaysInFirstMonths(6, y) + 31 + 31;
    assert DaysInFirstMonths(10, y) == DaysInFirstMonths(8, y) + 30 + 31;
    assert DaysInFirstMonths(12, y) == DaysInFirstMonths(10, y) + 30 + 31;
  }

  /** A date is valid when its month is 1..12 and its day lies within that
      month of that year. */
  predicate IsValidDate(d: int, m: int, y: int)
  {
    1 <= m <= 12 && 1 <= d <= DaysInMonth(m, y)
  }

  /** Every valid date has day 1..31 and month 1..12; a 31st exists exactly
      in the seven long months. */
  lemma ValidDateRanges(d: int, m: int, y: int)
    ensures IsValidDate(d, m, y) ==> 1 <= d <= 31 && 1 <= m <= 12
    ensures IsValidDate(31, m, y) <==> m in {1, 3, 5, 7, 8, 10, 12}
    ensures IsValidDate(30, m, y) <==> 1 <= m <= 12 && m != 2
  {
  }

  /** February 29 exists exactly in leap years. */
  lemma LeapDay(y: int)
    ensures IsValidDate(29, 2, y) <==> IsLeapYear(y)
  {
  }

  /** Changing only the year of a valid date can invalidate it only when the
      date is February 29 and the new year is not a leap year. */
  lemma ChangeOfYear(d: int, m: int, y: int, y2: int)
    requires IsValidDate(d, m, y)
    ensures IsValidDate(d, m, y2) <==> !(d == 29 && m == 2) || IsLeapYear(y2)
  {
  }

  /** Which field a rejected constructor call or setter call was about; the
      source throws `invalid_argument` with a different message for each. */
  datatype DateError = InvalidDate | InvalidDay | InvalidMonth | InvalidYear

  /** Outcome of a setter: the update was made, or it was rejected. */
  datatype Outcome = Pass | Fail(error: DateError)

  /** Month names in the genitive case, as the long print format uses them. */
  const MonthNames: seq<string> := [
    "січня", "лютого", "березня", "квітня", "травня", "червня",
    "липня", "серпня", "вересня", "жовтня", "листопада", "грудня"]

  class Date {
    var day: int
    var month: int
    var year: int

    /** The class invariant: the stored triple is a valid date. */
    ghost predicate Valid()
      reads this
    {
      IsValidDate(day, month, year)
    }

    /** The default date, 1 January 2000. */
    constructor ()
      ensures Valid()
      ensures day == 1 && month == 1 && year == 2000
    {
      day, month, year := 1, 1, 2000;
    }

    /** The three-argument constructor: rejects an invalid triple, otherwise
        builds a date holding exactly that triple. */
    static method Create(d: int, m: int, y: int) returns (r: Result<Date, DateError>)
      ensures r.Ok? <==> IsValidDate(d, m, y)
      ensures r.Err? ==> r.error == InvalidDate
      ensures r.Ok? ==> fresh(r.value) && r.value.Valid()
      ensures r.Ok? ==> r.value.day == d && r.value.month == m && r.value.year == y
    {
      if !IsValidDate(d, m, y) {
        return Err(InvalidDate);
      }
      var date := new Date();
      date.day, date.month, date.year := d, m, y;
      r := Ok(date);
    }

    method SetDay(d: int) returns (r: Outcome)
      modifies this
      ensures r.Pass? <==> IsValidDate(d, old(month), old(year))
      ensures r.Pass? ==> day == d && month == old(month) && year == old(year)
      ensures r.Fail? ==> r.error == InvalidDay && unchanged(this)
      ensures old(Valid()) ==> Valid()
    {
      if !IsValidDate(d, month, year) {
        return Fail(InvalidDay);
      }
      day := d;
      r := Pass;
    }

    method SetMonth(m: int) returns (r: Outcome)
      modifies this
      ensures r.Pass? <==> IsValidDate(old(day), m, old(year))
      ensures r.Pass? ==> month == m && day == old(day) && year == old(year)
      ensures r.Fail? ==> r.error == InvalidMonth && unchanged(this)
      ensures old(Valid()) ==> Valid()
    {
      if !IsValidDate(day, m, year) {
        return Fail(InvalidMonth);
      }
      month := m;
      r := Pass;
    }

    method SetYear(y: int) returns (r: Outcome)
      modifies this
      ensures r.Pass? <==> IsValidDate(old(day), old(month), y)
      ensures r.Pass? ==> year == y && day == old(day) && month == old(month)
      ensures r.Fail? ==> r.error == InvalidYear && unchanged(this)
      ensures old(Valid()) ==> Valid()
    {
      if !IsValidDate(day, month, y) {
        return Fail(InvalidYear);
      }
      year := y;
      r := Pass;
    }

    method GetDay() returns (d: int)
      requires Valid()
      ensures d == day && 1 <= d <= DaysInMonth(month, year)
    {
      d := day;
    }

    method GetMonth() returns (m: int)
      requires Valid()
      ensures m == month && 1 <= m <= 12
    {
      m := month;
    }

    method GetYear() returns (y: int)
      ensures y == year
    {
      y := year;
    }

    /** The month word of the long print format: indexing the twelve-entry
        table with `month - 1` is in bounds for every valid date. */
    function LongMonthName(): (name: string)
      reads this
      requires Valid()
      ensures name in MonthNames
    {
      MonthNames[month - 1]
    }
  }

  /** The demonstration program: 5 January 2019 is accepted, the three
      setters move it to 15 December 2022 without a rejection, and
      31 February 2023 would be rejected. */
  method DateScenario() returns (date: Date, outcomes: seq<Outcome>, invalid: Result<Date, DateError>)
    ensures date.Valid() && date.day == 15 && date.month == 12 && date.year == 2022
    ensures outcomes == [Pass, Pass, Pass]
    ensures invalid == Err(InvalidDate)
  {
    var created := Date.Create(5, 1, 2019);
    date := created.value;
    var r1 := date.SetDay(15);
    var r2 := date.SetMonth(12);
    var r3 := date.SetYear(2022);
    outcomes := [r1, r2, r3];
    invalid := Date.Create(31, 2, 2023);
  }
}
