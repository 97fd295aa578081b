/** Error outcomes of the graph operations, standing for the exceptions the
    Python code raises. */
module Results {

  datatype Error =
    | EmptyEdgeList     // `source.max()` / `target.max()` on an empty array
    | LengthMismatch    // scipy refuses row, column and data arrays of different lengths
    | BadColumnCount    // an edge table with neither 2 nor 3 columns
    | IndexOutOfRange   // a vertex id at or beyond the vertex count

  datatype Result<+T> = Ok(value: T) | Err(error: Error)

  /** The outcome of an operation that only changes state. */
  datatype Outcome = Pass | Fail(error: Error)
}
