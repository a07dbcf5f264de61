/**
 * Age comparisons in CEL: `age_years` and `years_ago` of spp_cel_domain/services/cel_functions.py, and
 * the date tests that `age_years(field) <op> n` is rewritten to (`_cmp_to_leaf` and
 * `_age_years_compare_to_sql` of spp_cel_domain/models/cel_translator.py).
 */
module AgeYears {
  import opened Wrappers

  datatype Date = Date(year: int, month: nat, day: nat)

  predicate IsLeap(year: int) {
    year % 4 == 0 && (year % 100 != 0 || year % 400 == 0)
  }

  function DaysIn(year: int, month: nat): nat {
    if month == 2 then (if IsLeap(year) then 29 else 28)
    else if month in {4, 6, 9, 11} then 30
    else 31
  }

  /** A calendar date, as Python's `date` accepts it. */
  predicate Valid(d: Date) {
    1 <= d.year <= 9999 && 1 <= d.month <= 12 && 1 <= d.day <= DaysIn(d.year, d.month)
  }

  /** Earlier in the year. */
  predicate EarlierInYear(a: Date, b: Date) {
    a.month < b.month || (a.month == b.month && a.day < b.day)
  }

  predicate Before(a: Date, b: Date) {
    a.year < b.year || (a.year == b.year && EarlierInYear(a, b))
  }

  /** `age_years`. */
  function Age(born: Date, today: Date): int {
    today.year - born.year - if EarlierInYear(today, born) then 1 else 0
  }

  /** `years_ago`: 29 February becomes 28 in a common year; None when the year is out of range, which raises. */
  function YearsAgo(today: Date, n: int): (date: Option<Date>)
    ensures Valid(today) && date.Some? ==> Valid(date.value)
  {
    var moved := today.(year := today.year - n);
    if Valid(moved) then Some(moved)
    else if Valid(moved.(month := 2, day := 28)) then Some(moved.(month := 2, day := 28))
    else None
  }

  datatype Comparison = LT | LE | GT | GE | EQ | NE

  /** The comparison of a record's age as evaluated directly; no age equals none, and is ordered with none. */
  predicate Direct(op: Comparison, n: int, born: Option<Date>, today: Date) {
    match born
    case None => op == NE
    case Some(d) =>
      match op
      case LT => Age(d, today) < n
      case LE => Age(d, today) <= n
      case GT => Age(d, today) > n
      case GE => Age(d, today) >= n
      case EQ => Age(d, today) == n
      case NE => Age(d, today) != n
  }

  /** Whether the rewritten date test selects the record; an unset date meets no test. None when building it raises. */
  function Selected(op: Comparison, n: int, born: Option<Date>, today: Date): Option<bool> {
    match YearsAgo(today, n)
    case None => None
    case Some(cutoff) =>
      match op
      case LT => Some(born.Some? && Before(cutoff, born.value))
      case LE => Some(born.Some? && !Before(born.value, cutoff))
      case GT => Some(born.Some? && Before(born.value, cutoff))
      case GE => Some(born.Some? && !Before(cutoff, born.value))
      case EQ =>
        (match YearsAgo(today, n + 1)
         case None => None
         case Some(low) => Some(born.Some? && Before(low, born.value) && !Before(cutoff, born.value)))
      case NE =>
        match YearsAgo(today, n + 1)
        case None => None
        case Some(low) => Some(born.Some? && (!Before(low, born.value) || Before(cutoff, born.value)))
  }

  /** Every fourth year has a 29 February, of the years that end a century every fourth one only. */
  predicate HasLeapDay(year: int) {
    year % 400 == 0 || (year % 4 == 0 && year % 100 != 0)
  }

  /** The days of the calendar, month by month. */
  lemma CalendarMeaning(d: Date)
    ensures Valid(d) <==>
      && 1 <= d.year <= 9999 && d.day >= 1
      && ((d.month in {1, 3, 5, 7, 8, 10, 12} && d.day <= 31)
          || (d.month in {4, 6, 9, 11} && d.day <= 30)
          || (d.month == 2 && d.day <= if HasLeapDay(d.year) then 29 else 28))
  {
  }

  /** The n-th birthday, on 29 February also in years that have none. */
  function Birthday(born: Date, n: int): Date {
    Date(born.year + n, born.month, born.day)
  }

  /** Dates in the order of the calendar. */
  predicate NotAfter(a: Date, b: Date) {
    a.year < b.year || (a.year == b.year && (a.month < b.month || (a.month == b.month && a.day <= b.day)))
  }

  /** An age is the number of birthdays reached. */
  lemma AgeMeaning(born: Date, today: Date, n: int)
    ensures Age(born, today) == n <==> NotAfter(Birthday(born, n), today) && !NotAfter(Birthday(born, n + 1), today)
  {
  }

  /** The date some years ago: the same day of the year, the last of February for its 29th; none outside the calendar's years. */
  lemma YearsAgoMeaning(today: Date, n: int)
    requires Valid(today)
    ensures YearsAgo(today, n) ==
        if 1 <= today.year - n <= 9999 then
          Some(Date(today.year - n, today.month,
                    if today.month == 2 && today.day == 29 && !HasLeapDay(today.year - n) then 28 else today.day))
        else None
  {
  }

  /** Whoever was born on the cutoff or earlier is at least `n`, on every day of the calendar. */
  lemma CutoffExact(born: Date, today: Date, n: int)
    requires Valid(born) && Valid(today) && YearsAgo(today, n).Some?
    ensures Age(born, today) >= n <==> !Before(YearsAgo(today, n).value, born)
  {
  }

  /**
   * The rewritten test selects a record exactly as direct evaluation does if and only if: for an
   * unset date, the comparison is not an inequality; for a date, the comparison is not one of the
   * two that look past a birthday (older than n, or n at most), or the age is not n, or the birthday
   * is on the cutoff day itself.
   */
  lemma RewriteExact(op: Comparison, n: int, born: Option<Date>, today: Date)
    requires Valid(today) && (born.Some? ==> Valid(born.value)) && Selected(op, n, born, today).Some?
    ensures Selected(op, n, born, today) == Some(Direct(op, n, born, today)) <==>
      match born
      case None => op != NE
      case Some(d) => (op != LE && op != GT) || Age(d, today) != n || Some(d) == YearsAgo(today, n)
  {
    if born.Some? {
      CutoffExact(born.value, today, n);
    }
  }

  /** Older than 18 takes in everyone who is 18, except on the birthday. */
  lemma EighteenIsOlder(born: Date, today: Date)
    requires Valid(born) && Valid(today) && today.year > 18 && Age(born, today) == 18
    ensures !Direct(GT, 18, Some(born), today)
    ensures Selected(GT, 18, Some(born), today) == Some(Some(born) != YearsAgo(today, 18))
  {
    RewriteExact(GT, 18, Some(born), today);
  }
}
