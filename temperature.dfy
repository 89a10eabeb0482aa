/** The temperature dimension: the observations of one country, deduplicated
    over five columns, with the date parsed and split into year and month. */
module TemperatureTable {

  import opened Wrappers
  import opened Cells
  import opened Dates
  import opened Frames

  /** One row of the city temperature file; `others` holds the columns that
      the table does not select. */
  datatype RawTemperature = RawTemperature(
    dt: Cell, averageTemperature: Cell, averageTemperatureUncertainty: Cell,
    city: Cell, country: Cell, others: seq<Cell>)

  /** The five selected columns, before the date is parsed. */
  datatype TemperatureColumns = TemperatureColumns(
    dt: Cell, averageTemperature: Cell, averageTemperatureUncertainty: Cell,
    city: Cell, country: Cell)

  /** An output row: the parsed date (null when it does not parse), the other
      four columns, and the year and month of the date. */
  datatype TemperatureRow = TemperatureRow(
    dt: Option<Date>, averageTemperature: Cell, averageTemperatureUncertainty: Cell,
    city: Cell, country: Cell, year: Option<int>, month: Option<int>)

  /** The string-to-date conversion, left abstract: a string either parses to
      a date or gives null. */
  type DateParser = string -> Option<Date>

  /** `where(df['Country'] == 'United States')`; a null country is dropped. */
  predicate InUnitedStates(r: RawTemperature) {
    r.country == Text(UNITED_STATES)
  }

  function SelectedOf(r: RawTemperature): TemperatureColumns {
    TemperatureColumns(r.dt, r.averageTemperature, r.averageTemperatureUncertainty, r.city, r.country)
  }

  /** `to_date` on a column value: null stays null. */
  function ParseCell(parse: DateParser, c: Cell): Option<Date> {
    if c.Text? then parse(c.chars) else None
  }

  /** `withColumn('dt', to_date(...))`, then `year` and `month` of it. */
  function WithDateParts(parse: DateParser, c: TemperatureColumns): TemperatureRow {
    var dt := ParseCell(parse, c.dt);
    TemperatureRow(dt, c.averageTemperature, c.averageTemperatureUncertainty, c.city, c.country,
                   if dt.Some? then Some(dt.value.year) else None,
                   if dt.Some? then Some(dt.value.month) else None)
  }

  /** What the table makes of one raw row that passes the filter. */
  function TemperatureOf(parse: DateParser, r: RawTemperature): TemperatureRow {
    WithDateParts(parse, SelectedOf(r))
  }

  /** Filter, select, `distinct` on the raw five columns, and only then parse. */
  function Temperature(raw: seq<RawTemperature>, parse: DateParser): seq<TemperatureRow> {
    Select(Distinct(Select(Where(raw, InUnitedStates), SelectedOf)), c => WithDateParts(parse, c))
  }

  /** Every row belongs to the United States. */
  lemma TemperatureCountry(raw: seq<RawTemperature>, parse: DateParser)
    ensures forall r :: r in Temperature(raw, parse) ==> r.country == Text(UNITED_STATES)
  {
    var kept := Where(raw, InUnitedStates);
    forall r | r in Temperature(raw, parse) ensures r.country == Text(UNITED_STATES) {
      var d := Distinct(Select(kept, SelectedOf));
      var i :| 0 <= i < |d| && r == WithDateParts(parse, d[i]);
      assert d[i] in Select(kept, SelectedOf);
      var j :| 0 <= j < |kept| && d[i] == SelectedOf(kept[j]);
      assert kept[j] in kept;
    }
  }

  /** Filter soundness and completeness: the rows are exactly what the table
      makes of the United States rows of the input, and there are as many as
      there are distinct five-column projections of those rows. */
  lemma TemperatureRows(raw: seq<RawTemperature>, parse: DateParser)
    ensures Rows(Temperature(raw, parse)) == Image(Where(raw, InUnitedStates), r => TemperatureOf(parse, r))
    ensures |Temperature(raw, parse)| == |Image(Where(raw, InUnitedStates), SelectedOf)|
  {
    var kept := Where(raw, InUnitedStates);
    var selected := Select(kept, SelectedOf);
    var d := Distinct(selected);
    var withParts := (c: TemperatureColumns) => WithDateParts(parse, c);
    var identity := (t: TemperatureRow) => t;
    SelectImage(d, withParts, identity, withParts);
    assert Image(Temperature(raw, parse), identity) == Rows(Temperature(raw, parse));
    DistinctImage(selected, withParts);
    SelectImage(kept, SelectedOf, withParts, r => TemperatureOf(parse, r));
    DistinctRows(selected);
  }

  /** `year` and `month` are the components of the parsed date, and null
      exactly when the date is. */
  lemma TemperatureDateParts(raw: seq<RawTemperature>, parse: DateParser)
    ensures forall r :: r in Temperature(raw, parse) ==>
      (r.dt.Some? <==> r.year.Some?) && (r.dt.Some? <==> r.month.Some?) &&
      (r.dt.Some? ==> r.year.value == r.dt.value.year && r.month.value == r.dt.value.month)
  {
  }

  /** When every United States date parses, and no two different date strings
      among those rows parse to the same date, no two output rows are equal. */
  lemma TemperatureNoDuplicates(raw: seq<RawTemperature>, parse: DateParser)
    requires forall r :: r in raw && InUnitedStates(r) ==> r.dt.Text? && parse(r.dt.chars).Some?
    requires forall r, s ::
      (r in raw && s in raw && InUnitedStates(r) && InUnitedStates(s) &&
       parse(r.dt.chars) == parse(s.dt.chars)) ==> r.dt == s.dt
    ensures NoDuplicates(Temperature(raw, parse))
  {
    var kept := Where(raw, InUnitedStates);
    var d := Distinct(Select(kept, SelectedOf));
    var t := Temperature(raw, parse);
    forall i, j | 0 <= i < j < |t| ensures t[i] != t[j] {
      assert d[i] in Select(kept, SelectedOf) && d[j] in Select(kept, SelectedOf);
      var a :| 0 <= a < |kept| && d[i] == SelectedOf(kept[a]);
      var b :| 0 <= b < |kept| && d[j] == SelectedOf(kept[b]);
      assert kept[a] in kept && kept[b] in kept;
    }
  }

  /** `distinct` runs on the raw date string: two United States rows that
      differ only in how the date is written stay two rows, and become equal
      once both strings parse to the same date. */
  lemma DistinctBeforeParse(x: RawTemperature, y: RawTemperature, parse: DateParser)
    requires InUnitedStates(x) && InUnitedStates(y)
    requires SelectedOf(x) != SelectedOf(y)
    requires TemperatureOf(parse, x) == TemperatureOf(parse, y)
    ensures Temperature([x, y], parse) == [TemperatureOf(parse, x), TemperatureOf(parse, x)]
  {
    WherePair(x, y, InUnitedStates);
    var selected := Select([x, y], SelectedOf);
    assert selected == [SelectedOf(x), SelectedOf(y)];
    DistinctPair(SelectedOf(x), SelectedOf(y));
  }

  /** Adding rows of other countries changes nothing. */
  lemma OtherCountriesDropped(raw: seq<RawTemperature>, other: seq<RawTemperature>, parse: DateParser)
    requires forall r :: r in other ==> !InUnitedStates(r)
    ensures Temperature(raw + other, parse) == Temperature(raw, parse)
  {
    WhereAppend(raw, other, InUnitedStates);
    assert Where(other, InUnitedStates) == [];
    assert Where(raw, InUnitedStates) + [] == Where(raw, InUnitedStates);
  }
}
