/** Calendar days. The source reads dates through `getFullYear`, `getMonth` and `getDate`
    and compares them with the current time; the model keeps the three calendar fields and
    orders days lexicographically. */
module Dates {

  datatype Date = Date(year: int, month: int, day: int)

  /** `a` is a strictly earlier day than `b`. */
  predicate Before(a: Date, b: Date)
  {
    a.year < b.year
    || (a.year == b.year && a.month < b.month)
    || (a.year == b.year && a.month == b.month && a.day < b.day)
  }

  /** `a` is not later than `b`: the check `v <= new Date()` at day granularity. */
  predicate NotAfter(a: Date, b: Date)
  {
    !Before(b, a)
  }
}
