/** The texts of the interface, spelled out once more, away from the constants
    the code compares with. */
module Wire {
  /** What the CHECK constraints of the table admit. */
  predicate Admissible(product: string, amount: real, unit: string) {
    && product in {"HONEY", "POLLEN", "PROPOLIS", "WAX"}
    && amount >= 0.0
    && unit in {"g", "kg", "l"}
  }

  /** The pairs of product and unit that a request may name. */
  predicate AllowedPair(product: string, unit: string) {
    || (product == "HONEY" && (unit == "kg" || unit == "l"))
    || (product == "POLLEN" && (unit == "g" || unit == "kg"))
    || (product == "PROPOLIS" && unit == "g")
    || (product == "WAX" && unit == "g")
  }

  /** What the amount filter asks. */
  predicate Compares(operator: string, stored: real, asked: real) {
    || (operator == "gt" && stored > asked)
    || (operator == "lt" && stored < asked)
    || (operator == "eq" && stored == asked)
  }

  /** The items are those of a page of a listing, pages counting from 1: of the
      whole listing, numbers (page - 1) * limit up to page * limit, as far as
      there are. */
  predicate IsPage<T(==)>(items: seq<T>, all: seq<T>, page: int, limit: int) {
    var start, end := (page - 1) * limit, page * limit;
    && 0 <= start <= end
    && |items| == (if start >= |all| then 0 else if end >= |all| then |all| - start else limit)
    && forall i | 0 <= i < |items| :: start + i < |all| && items[i] == all[start + i]
  }

  predicate Digit(c: char) { '0' <= c <= '9' }

  function Value(c: char): int
    requires Digit(c)
  {
    c as int - '0' as int
  }

  /** YYYY-MM-DD, by its characters. */
  predicate DateShape(s: string) {
    && |s| == 10 && s[4] == '-' && s[7] == '-'
    && Digit(s[0]) && Digit(s[1]) && Digit(s[2]) && Digit(s[3])
    && Digit(s[5]) && Digit(s[6]) && Digit(s[8]) && Digit(s[9])
  }

  function YearOf(s: string): int
    requires DateShape(s)
  {
    Value(s[0]) * 1000 + Value(s[1]) * 100 + Value(s[2]) * 10 + Value(s[3])
  }

  function MonthOf(s: string): int
    requires DateShape(s)
  {
    Value(s[5]) * 10 + Value(s[6])
  }

  function DayOf(s: string): int
    requires DateShape(s)
  {
    Value(s[8]) * 10 + Value(s[9])
  }

  /** The length of a month in the Gregorian calendar. */
  function MonthLength(year: int, month: int): int {
    match month
    case 2 => if year % 400 == 0 || (year % 4 == 0 && year % 100 != 0) then 29 else 28
    case 4 => 30
    case 6 => 30
    case 9 => 30
    case 11 => 30
    case _ => 31
  }
}
