/** The values a dataframe column holds. */
module Cells {

  /** A column value: null, a number (SAS numeric columns), or text (SAS
      character columns and every CSV column). */
  datatype Cell = Null | Num(value: real) | Text(chars: string)

  /** The country label attached to the fact table and kept by the
      temperature filter. */
  const UNITED_STATES: string := "United States"
}
