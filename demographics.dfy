/** The demographics dimension: a deduplicated projection of the city
    demographic snapshot with a surrogate identifier. */
module DemographicsTable {

  import opened Cells
  import opened Frames

  /** One row of the demographics file; `others` holds the columns that the
      table does not select. */
  datatype RawDemographics = RawDemographics(
    city: Cell, state: Cell, malePopulation: Cell, femalePopulation: Cell,
    numberOfVeterans: Cell, race: Cell, foreignBorn: Cell, avgHouseholdSize: Cell,
    others: seq<Cell>)

  datatype DemographicsColumns = DemographicsColumns(
    city: Cell, state: Cell, malePopulation: Cell, femalePopulation: Cell,
    numberOfVeterans: Cell, race: Cell, foreignBorn: Cell, avgHouseholdSize: Cell)

  /** A demographics row; its `id` is `demog_pop_id`. */
  type DemographicsRow = Labelled<DemographicsColumns>

  function DemographicsOf(r: RawDemographics): DemographicsColumns {
    DemographicsColumns(r.city, r.state, r.malePopulation, r.femalePopulation,
                        r.numberOfVeterans, r.race, r.foreignBorn, r.avgHouseholdSize)
  }

  function Demographics(raw: seq<RawDemographics>): seq<DemographicsRow> {
    WithIds(Distinct(Select(raw, DemographicsOf)))
  }

  /** The table is exactly the set of input projections onto its eight
      columns, each once, and `demog_pop_id` is unique. */
  lemma DemographicsRows(raw: seq<RawDemographics>)
    ensures Image(Demographics(raw), (l: DemographicsRow) => l.columns) == Image(raw, DemographicsOf)
    ensures forall i, j :: 0 <= i < j < |Demographics(raw)| ==>
      Demographics(raw)[i].columns != Demographics(raw)[j].columns &&
      Demographics(raw)[i].id != Demographics(raw)[j].id
    ensures |Demographics(raw)| == |Image(raw, DemographicsOf)| <= |raw|
  {
    LabelledDistinct(raw, DemographicsOf);
  }
}
