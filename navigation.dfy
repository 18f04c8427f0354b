/**
 * The previous/next month links of the planning page and of the trainer
 * dashboard, and the dashboard's fallback to the current month.
 */
module Navigation {
  import opened Wrappers

  datatype YearMonth = YearMonth(year: int, month: int)

  predicate ValidMonth(ym: YearMonth) { 1 <= ym.month <= 12 }

  /** Months counted consecutively across years; January of year 0 is 0. */
  function Index(ym: YearMonth): int { ym.year * 12 + ym.month - 1 }

  /** The month before: January steps back to December of the previous year. */
  function Prev(ym: YearMonth): (p: YearMonth)
    ensures ValidMonth(ym) ==> ValidMonth(p) && Index(p) == Index(ym) - 1
    ensures ym.month >= 2 ==> p.year == ym.year
  {
    if ym.month - 1 < 1 then YearMonth(ym.year - 1, 12) else YearMonth(ym.year, ym.month - 1)
  }

  /** The month after: December steps forward to January of the next year. */
  function Next(ym: YearMonth): (n: YearMonth)
    ensures ValidMonth(ym) ==> ValidMonth(n) && Index(n) == Index(ym) + 1
    ensures ym.month <= 11 ==> n.year == ym.year
  {
    if ym.month + 1 > 12 then YearMonth(ym.year + 1, 1) else YearMonth(ym.year, ym.month + 1)
  }

  /** Index is one-to-one on valid months, so the navigation is determined by it. */
  lemma {:induction false} IndexInjective(a: YearMonth, b: YearMonth)
    requires ValidMonth(a) && ValidMonth(b) && Index(a) == Index(b)
    ensures a == b
  {
  }

  /** On valid months, previous and next undo each other. */
  lemma PrevNextInverse(ym: YearMonth)
    requires ValidMonth(ym)
    ensures Next(Prev(ym)) == ym && Prev(Next(ym)) == ym
  {
    IndexInjective(Next(Prev(ym)), ym);
    IndexInjective(Prev(Next(ym)), ym);
  }

  /** The year wraps exactly at the ends of the year. */
  lemma YearWrap(y: int)
    ensures Prev(YearMonth(y, 1)) == YearMonth(y - 1, 12)
    ensures Next(YearMonth(y, 12)) == YearMonth(y + 1, 1)
  {
  }

  /**
   * The month the trainer dashboard shows: a missing parameter is the
   * current year/month, and a month outside 1..12 falls back to the current month
   * (the year parameter is kept as given).
   */
  function DashboardMonth(year: Option<nat>, month: Option<nat>, now: YearMonth): (shown: YearMonth)
    requires ValidMonth(now)
    ensures ValidMonth(shown)
    ensures shown.year == if year.Some? then year.value else now.year
    ensures month.Some? && 1 <= month.value <= 12 ==> shown.month == month.value
    ensures !(month.Some? && 1 <= month.value <= 12) ==> shown.month == now.month
  {
    var y := if year.Some? then year.value else now.year;
    var m := if month.Some? then month.value else now.month;
    if m < 1 || m > 12 then YearMonth(y, now.month) else YearMonth(y, m)
  }
}
