/** The builders over the immigration records: the reconciled frame shared by
    all of them, the fact table and its partitions by residence state, and the
    personal, airline and visa dimension tables. */
module ImmigrationTables {

  import opened Cells
  import opened Dates
  import opened DateReconciler
  import opened Frames

  /** One immigration record. D is the type of the two offset-encoded date
      columns: DayOffset as read, Date once reconciled. `others` holds the
      columns that no output table keeps. */
  datatype Immigration<D> = Immigration(
    cicid: Cell, i94yr: Cell, i94mon: Cell, i94cit: Cell, i94res: Cell,
    i94port: Cell, arrdate: D, i94mode: Cell, i94addr: Cell, depdate: D,
    i94visa: Cell, biryear: Cell, gender: Cell, airline: Cell, admnum: Cell,
    fltno: Cell, visapost: Cell, others: seq<Cell>)

  type RawImmigration = Immigration<DayOffset>

  /** Everything of a record except its two date columns. */
  function Undated<D>(r: Immigration<D>): Immigration<()> {
    Immigration(r.cicid, r.i94yr, r.i94mon, r.i94cit, r.i94res, r.i94port, (),
                r.i94mode, r.i94addr, (), r.i94visa, r.biryear, r.gender,
                r.airline, r.admnum, r.fltno, r.visapost, r.others)
  }

  /** The two `withColumn(..., to_date(fix_date(...)))` steps: arrival and
      departure are reconciled separately, and no other column changes. */
  function ReconcileDates(r: RawImmigration): (s: Immigration<Date>)
    ensures s.arrdate == FixDate(r.arrdate) && s.depdate == FixDate(r.depdate)
    ensures ValidDate(s.arrdate) && ValidDate(s.depdate)
    ensures Undated(s) == Undated(r)
  {
    Immigration(r.cicid, r.i94yr, r.i94mon, r.i94cit, r.i94res, r.i94port,
                FixDate(r.arrdate), r.i94mode, r.i94addr, FixDate(r.depdate),
                r.i94visa, r.biryear, r.gender, r.airline, r.admnum, r.fltno,
                r.visapost, r.others)
  }

  /** The reconciled frame each builder starts from. */
  function ReconciledFrame(raw: seq<RawImmigration>): seq<Immigration<Date>> {
    Select(raw, ReconcileDates)
  }

  // ---------------------------------------------------------------- fact table

  datatype FactColumns = FactColumns(
    cicid: Cell, i94yr: Cell, i94mon: Cell, i94port: Cell, i94addr: Cell,
    arrdate: Date, depdate: Date, i94mode: Cell, i94visa: Cell)

  datatype FactRow = FactRow(columns: FactColumns, immigrationId: nat, country: string)

  /** The nine columns the fact table selects. */
  function FactOf(r: Immigration<Date>): FactColumns {
    FactColumns(r.cicid, r.i94yr, r.i94mon, r.i94port, r.i94addr, r.arrdate,
                r.depdate, r.i94mode, r.i94visa)
  }

  /** What the fact table keeps of one raw record. */
  function FactProjection(x: RawImmigration): FactColumns {
    FactOf(ReconcileDates(x))
  }

  /** `withColumn('country', lit('United States'))`. */
  function AddCountry(l: Labelled<FactColumns>): FactRow {
    FactRow(l.columns, l.id, UNITED_STATES)
  }

  function FactTable(raw: seq<RawImmigration>): seq<FactRow> {
    Select(WithIds(Distinct(Select(ReconciledFrame(raw), FactOf))), AddCountry)
  }

  function FactColumnsOf(r: FactRow): FactColumns {
    r.columns
  }

  /** The partition a value of the partition column is written to. The
      partitioned writer names a null value and the empty string by the same
      default directory, so both land in one partition, here named `Null`. */
  function PartitionKey(c: Cell): Cell {
    if c == Text("") then Null else c
  }

  /** The partition a fact row is written to. */
  function FactState(r: FactRow): Cell {
    PartitionKey(r.columns.i94addr)
  }

  /** The partition a raw record's fact row is written to. */
  function ResidencePartition(r: RawImmigration): Cell {
    PartitionKey(r.i94addr)
  }

  /** `partitionBy('i94addr')`. */
  function FactPartitions(raw: seq<RawImmigration>): map<Cell, seq<FactRow>> {
    PartitionBy(FactTable(raw), FactState)
  }

  /** Leaving out the identifier and the country, the fact table is exactly the
      set of reconciled input rows projected onto the nine fact columns; no two
      rows agree on those columns, so it has one row per distinct projection
      and no more rows than the input. */
  lemma FactTableRows(raw: seq<RawImmigration>)
    ensures Image(FactTable(raw), FactColumnsOf) == Image(raw, FactProjection)
    ensures forall i, j :: 0 <= i < j < |FactTable(raw)| ==> FactTable(raw)[i].columns != FactTable(raw)[j].columns
    ensures |FactTable(raw)| == |Image(raw, FactProjection)| <= |raw|
  {
    var frame := ReconciledFrame(raw);
    var labelled := WithIds(Distinct(Select(frame, FactOf)));
    var columns := (l: Labelled<FactColumns>) => l.columns;
    LabelledDistinct(frame, FactOf);
    SelectImage(labelled, AddCountry, FactColumnsOf, columns);
    SelectImage(raw, ReconcileDates, FactOf, FactProjection);
  }

  /** `immigration_id` is unique within the fact table. */
  lemma FactIdsUnique(raw: seq<RawImmigration>)
    ensures forall i, j :: 0 <= i < j < |FactTable(raw)| ==>
      FactTable(raw)[i].immigrationId != FactTable(raw)[j].immigrationId
  {
  }

  /** Every fact row is labelled with the United States. */
  lemma FactCountry(raw: seq<RawImmigration>)
    ensures forall r :: r in FactTable(raw) ==> r.country == UNITED_STATES
  {
  }

  /** The partitions are named by exactly the residence states of the input
      (with the empty string folded into null); every fact row lies in the one
      partition named by its own `i94addr` and in no other; every partition row
      is a fact row. */
  lemma FactPartitionsCorrect(raw: seq<RawImmigration>)
    ensures FactPartitions(raw).Keys == Image(raw, ResidencePartition)
    ensures forall r, k :: r in FactTable(raw) && k in FactPartitions(raw) ==>
      (r in FactPartitions(raw)[k] <==> k == PartitionKey(r.columns.i94addr))
    ensures forall r :: r in FactTable(raw) ==> PartitionKey(r.columns.i94addr) in FactPartitions(raw)
    ensures forall k, r :: k in FactPartitions(raw) && r in FactPartitions(raw)[k] ==> r in FactTable(raw)
  {
    var frame := ReconciledFrame(raw);
    var projected := Select(frame, FactOf);
    var labelled := WithIds(Distinct(projected));
    var labelledState := (l: Labelled<FactColumns>) => PartitionKey(l.columns.i94addr);
    var state := (c: FactColumns) => PartitionKey(c.i94addr);
    var reconciledState := (r: Immigration<Date>) => PartitionKey(r.i94addr);
    PartitionByCorrect(FactTable(raw), FactState);
    SelectImage(labelled, AddCountry, FactState, labelledState);
    WithIdsImage(Distinct(projected), state, labelledState);
    DistinctImage(projected, state);
    SelectImage(frame, FactOf, state, reconciledState);
    SelectImage(raw, ReconcileDates, reconciledState, ResidencePartition);
  }

  /** Fact rows whose `i94addr` is null and fact rows whose `i94addr` is the
      empty string are written to the same partition. */
  lemma EmptyStateInNullPartition(raw: seq<RawImmigration>)
    ensures forall r :: r in FactTable(raw) && (r.columns.i94addr == Null || r.columns.i94addr == Text("")) ==>
      Null in FactPartitions(raw) && r in FactPartitions(raw)[Null]
  {
    FactPartitionsCorrect(raw);
  }

  // ---------------------------------------------------- personal dimension

  datatype PersonalColumns = PersonalColumns(
    cicid: Cell, i94cit: Cell, i94res: Cell, biryear: Cell, gender: Cell, i94visa: Cell)

  /** A personal row; its `id` is `personal_id`. */
  type PersonalRow = Labelled<PersonalColumns>

  function PersonalOf<D>(r: Immigration<D>): PersonalColumns {
    PersonalColumns(r.cicid, r.i94cit, r.i94res, r.biryear, r.gender, r.i94visa)
  }

  function PersonalTable(raw: seq<RawImmigration>): seq<PersonalRow> {
    WithIds(Distinct(Select(ReconciledFrame(raw), PersonalOf)))
  }

  /** The personal table is exactly the set of input projections onto its six
      columns, each once, and `personal_id` is unique. */
  lemma PersonalTableRows(raw: seq<RawImmigration>)
    ensures Image(PersonalTable(raw), (l: PersonalRow) => l.columns) == Image(raw, PersonalOf)
    ensures forall i, j :: 0 <= i < j < |PersonalTable(raw)| ==>
      PersonalTable(raw)[i].columns != PersonalTable(raw)[j].columns &&
      PersonalTable(raw)[i].id != PersonalTable(raw)[j].id
    ensures |PersonalTable(raw)| == |Image(raw, PersonalOf)| <= |raw|
  {
    LabelledDistinct(ReconciledFrame(raw), PersonalOf);
    SelectImage(raw, ReconcileDates, PersonalOf, PersonalOf);
  }

  // ----------------------------------------------------- airline dimension

  datatype AirlineColumns = AirlineColumns(cicid: Cell, airline: Cell, admnum: Cell, fltno: Cell)

  /** An airline row; its `id` is `immi_airline_id`. */
  type AirlineRow = Labelled<AirlineColumns>

  function AirlineOf<D>(r: Immigration<D>): AirlineColumns {
    AirlineColumns(r.cicid, r.airline, r.admnum, r.fltno)
  }

  function AirlineTable(raw: seq<RawImmigration>): seq<AirlineRow> {
    WithIds(Distinct(Select(ReconciledFrame(raw), AirlineOf)))
  }

  /** The airline table is exactly the set of input projections onto its four
      columns, each once, and `immi_airline_id` is unique. */
  lemma AirlineTableRows(raw: seq<RawImmigration>)
    ensures Image(AirlineTable(raw), (l: AirlineRow) => l.columns) == Image(raw, AirlineOf)
    ensures forall i, j :: 0 <= i < j < |AirlineTable(raw)| ==>
      AirlineTable(raw)[i].columns != AirlineTable(raw)[j].columns &&
      AirlineTable(raw)[i].id != AirlineTable(raw)[j].id
    ensures |AirlineTable(raw)| == |Image(raw, AirlineOf)| <= |raw|
  {
    LabelledDistinct(ReconciledFrame(raw), AirlineOf);
    SelectImage(raw, ReconcileDates, AirlineOf, AirlineOf);
  }

  /** Two records that agree on every fact column but not on the airline
      columns (a different flight number, say) give one fact row and two
      airline rows. */
  lemma SameFactDifferentFlight(a: RawImmigration, b: RawImmigration)
    requires FactProjection(a) == FactProjection(b)
    requires AirlineOf(a) != AirlineOf(b)
    ensures |FactTable([a, b])| == 1
    ensures |AirlineTable([a, b])| == 2
  {
    PairImage(a, b, FactProjection);
    FactTableRows([a, b]);
    PairImage(a, b, AirlineOf);
    AirlineTableRows([a, b]);
  }

  // -------------------------------------------------------- visa dimension

  /** A visa row: `i94visa` renamed to `Visa_id`, and `visapost`. */
  datatype VisaRow = VisaRow(visaId: Cell, visapost: Cell)

  function VisaOf<D>(r: Immigration<D>): VisaRow {
    VisaRow(r.i94visa, r.visapost)
  }

  /** Projection and rename only: no `distinct`, no identifier. */
  function VisaTable(raw: seq<RawImmigration>): seq<VisaRow> {
    Select(ReconciledFrame(raw), VisaOf)
  }

  /** The visa table has one row per input row, in input order, whose `Visa_id`
      is that row's `i94visa` and whose `visapost` is its `visapost`. */
  lemma VisaTableRows(raw: seq<RawImmigration>)
    ensures |VisaTable(raw)| == |raw|
    ensures forall i :: 0 <= i < |raw| ==>
      VisaTable(raw)[i].visaId == raw[i].i94visa && VisaTable(raw)[i].visapost == raw[i].visapost
  {
  }

  /** Duplicates survive in the visa table: a record read twice gives two equal
      visa rows, while the personal table has one row for it. */
  lemma VisaTableKeepsDuplicates(x: RawImmigration)
    ensures VisaTable([x, x]) == [VisaOf(x), VisaOf(x)]
    ensures |PersonalTable([x, x])| == 1
  {
    PersonalTableRows([x, x]);
    assert Image([x, x], PersonalOf) == {PersonalOf(x)};
  }
}
