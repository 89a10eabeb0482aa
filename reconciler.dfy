/** The date reconciler `fix_date`: a day offset from 1960-01-01 becomes a
    calendar date, and any conversion failure becomes the sentinel 1900-01-01. */
module DateReconciler {

  import opened Dates

  /** The raw offset column as the reconciler receives it: a whole number of
      days, or a value the conversion cannot read. */
  datatype DayOffset = Days(n: int) | Unparseable

  /** The date substituted when the conversion fails. */
  const SENTINEL: Date := Date(1900, 1, 1)

  /** The conversion computes in signed 64-bit nanoseconds. A day count converts
      to a time span only when |n| <= 106751, and 1960-01-01 plus the span stays
      at or after the earliest timestamp (1677-09-21 00:12:43) only when
      n >= -103098. */
  const MIN_OFFSET: int := -103098
  const MAX_OFFSET: int := 106751

  predicate Representable(n: int) {
    MIN_OFFSET <= n <= MAX_OFFSET
  }

  /** `fix_date` followed by the truncation to a date. */
  function FixDate(x: DayOffset): (d: Date)
    ensures ValidDate(d)
    ensures x.Days? && Representable(x.n) ==> DayNumber(d) == x.n
    ensures x.Unparseable? || !Representable(x.n) ==> d == SENTINEL
  {
    match x
    case Days(n) => if Representable(n) then PlusDays(EPOCH, n) else SENTINEL
    case Unparseable => SENTINEL
  }

  /** Offset 0 is the epoch itself. */
  lemma FixDateZero()
    ensures FixDate(Days(0)) == EPOCH
  {
    PlusDaysOfDayNumber(EPOCH);
  }

  /** For a representable offset the result is the unique valid date that lies
      that many days after the epoch. */
  lemma FixDateExact(n: int, d: Date)
    requires Representable(n) && ValidDate(d)
    ensures FixDate(Days(n)) == d <==> DayNumber(d) == n
  {
    if DayNumber(d) == n {
      DayNumberInjective(FixDate(Days(n)), d);
    }
  }

  /** Between representable offsets, a larger offset gives a later date and a
      smaller or equal one never does. */
  lemma FixDateMonotone(n: int, m: int)
    requires Representable(n) && Representable(m)
    ensures Before(FixDate(Days(n)), FixDate(Days(m))) <==> n < m
  {
    PlusDaysMonotone(n, m);
  }

  /** Every valid date whose day number is representable is reached. */
  lemma FixDateRoundTrip(d: Date)
    requires ValidDate(d) && Representable(DayNumber(d))
    ensures FixDate(Days(DayNumber(d))) == d
  {
    PlusDaysOfDayNumber(d);
  }

  /** Offset 20820 is 2017-01-01. */
  lemma FixDateNewYear2017()
    ensures FixDate(Days(20820)) == Date(2017, 1, 1)
  {
    assert DayNumber(Date(2017, 1, 1)) == 20820;
    FixDateRoundTrip(Date(2017, 1, 1));
  }

  /** Offset 20819 is the day before, 2016-12-31. */
  lemma FixDateNewYearsEve2016()
    ensures FixDate(Days(20819)) == Date(2016, 12, 31)
  {
    assert DayNumber(Date(2016, 12, 31)) == 20819;
    FixDateRoundTrip(Date(2016, 12, 31));
  }

  /** The earliest representable offset is 1677-09-22; one day earlier fails. */
  lemma FixDateFirstRepresentable()
    ensures FixDate(Days(MIN_OFFSET)) == Date(1677, 9, 22)
    ensures FixDate(Days(MIN_OFFSET - 1)) == SENTINEL
  {
    assert DayNumber(Date(1677, 9, 22)) == MIN_OFFSET;
    FixDateRoundTrip(Date(1677, 9, 22));
  }

  /** The latest representable offset is 2252-04-10; one day later fails. */
  lemma FixDateLastRepresentable()
    ensures FixDate(Days(MAX_OFFSET)) == Date(2252, 4, 10)
    ensures FixDate(Days(MAX_OFFSET + 1)) == SENTINEL
  {
    assert DayNumber(Date(2252, 4, 10)) == MAX_OFFSET;
    FixDateRoundTrip(Date(2252, 4, 10));
  }

  /** The sentinel is also a genuine result: offset -21914 is 1900-01-01, so a
      reconciled date equal to the sentinel does not by itself tell a failed
      conversion from a real date. */
  lemma SentinelIsAlsoADate()
    ensures FixDate(Days(-21914)) == SENTINEL == FixDate(Unparseable)
  {
    assert DayNumber(SENTINEL) == -21914;
    FixDateRoundTrip(SENTINEL);
  }
}
