/** Shared vocabulary: optional values, results, the errors that stop the script, and a
    worksheet as the data frame the script loads it into. */
module Sheet {

  datatype Option<T> = None | Some(value: T)

  /** The script's failure paths (an uncaught KeyError or ValueError, or an explicit stop). */
  datatype Error =
    | MissingColumn(name: string)    // a required column is absent from a sheet
    | EmptyReferenceSheet            // the Exercise Master or the Constants sheet loaded empty
    | DuplicateExerciseName          // exercise names are not unique, so the name index is refused

  datatype Result<T> = Ok(value: T) | Err(error: Error)

  /** One record of a sheet: column name to the text of the cell.  A column name that is
      absent from a record stands for a missing value (pandas' NaN). */
  type Record = map<string, string>

  /** A loaded sheet: the header row in sheet order and one record per data row. */
  datatype Frame = Frame(columns: seq<string>, records: seq<Record>)

  /** pandas' DataFrame.empty: no rows or no columns. */
  predicate IsEmpty(f: Frame)
  {
    |f.records| == 0 || |f.columns| == 0
  }

  /** The cell of a record under a column, or None for a missing value. */
  function CellOf(rec: Record, column: string): Option<string>
  {
    if column in rec then Some(rec[column]) else None
  }
}
