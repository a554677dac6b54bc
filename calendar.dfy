/** The parts of java.time the library relies on: `Year` and `LocalDate`. */
module Calendar {

  /** `Year.MIN_VALUE` and `Year.MAX_VALUE`: `Year.of` throws outside them. */
  const MinYear: int := -999_999_999
  const MaxYear: int := 999_999_999

  predicate InYearRange(i: int) {
    MinYear <= i <= MaxYear
  }

  /** A `java.time.Year`; `value` is what `getValue()` returns. */
  datatype Year = Year(value: int)

  /** `Year.of(i)`, defined only where Java does not throw. */
  function YearOf(i: int): (y: Year)
    requires InYearRange(i)
    ensures y.value == i
  {
    Year(i)
  }

  /** `a.isAfter(b)` */
  predicate IsAfter(a: Year, b: Year) {
    a.value > b.value
  }

  /** A `java.time.LocalDate`, compared field by field. */
  datatype Date = Date(year: int, month: int, day: int)

  /** `a.isBefore(b)`: the chronological (lexicographic) order on dates. */
  predicate IsBefore(a: Date, b: Date) {
    || a.year < b.year
    || (a.year == b.year && a.month < b.month)
    || (a.year == b.year && a.month == b.month && a.day < b.day)
  }
}
