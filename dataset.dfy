/** The rows of the `air_quality_cleaned` table as the core sees them. */
module Dataset {

  /**
   * One measurement cell (`date`, `pm25`, `pm10` or `no2`). Its value is
   * opaque to the core; `text` is what Python's `str()` (and so an
   * f-string) renders it as.
   */
  datatype Cell = Cell(text: string)

  /** One row of the dataset. */
  datatype Row = Row(city: string, date: Cell, pm25: Cell, pm10: Cell, no2: Cell)

  /** A row of a pandas frame together with its index label. */
  datatype Labelled = Labelled(index: nat, row: Row)
}
