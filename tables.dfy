/** Cells, rows, tables and errors shared by every stage of the receipt
    verification pipeline. A pandas cell that may hold NaN/None is an
    `Option<string>`; a table knows its column names and its rows in order. */
module Tables {

  datatype Option<+T> = None | Some(value: T)

  /** The errors the pipeline stops on: each is a `KeyError` in the source. */
  datatype Error =
    | MissingResponseColumn    // a table has no `response` column
    | MissingCatalogueColumns  // the catalogue lacks `sku_code` or `corr_sku`
    | MissingSkuColumn         // the verification table has no `sku` join key
    | MissingCorrSkuColumn     // the merged table has no plain `corr_sku` column

  datatype Result<+T> = Success(value: T) | Failure(error: Error)

  /** A nullable cell. */
  type Cell = Option<string>

  /** A receipt row: the two columns the pipeline reads, and every other
      column of the row, which the pipeline carries along untouched. */
  datatype Row = Row(sku: Cell, response: Cell, others: map<string, Cell>)

  /** A table: its column names and its rows, in order. */
  datatype Table = Table(columns: set<string>, rows: seq<Row>)

  const ResponseColumn := "response"
  const SkuColumn := "sku"
  const SkuCodeColumn := "sku_code"
  const CorrSkuColumn := "corr_sku"
}
