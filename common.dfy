/** Shared vocabulary: node identifiers, optional values, results and the
    errors the modules raise. */
module Common {

  /** Node identifiers of a network (the `id` column of its node table). */
  type NodeId = int

  datatype Option<+T> = None | Some(value: T)

  /** A module's `process` either completes or raises one of `Error`. */
  datatype Result<+T> = Success(value: T) | Failure(error: Error)

  datatype Error =
    /** `KiaraProcessingException`: a file name without the expected pattern. */
    | InvalidFileName(file: string)
    /** `KeyError`: a column the table does not have. */
    | MissingColumn(name: string)
    /** `TypeError`: a regular expression applied to a cell that is not text. */
    | NotText(column: string)
    /** `ValueError` from `pd.to_datetime`: a date string it cannot parse. */
    | InvalidDate(text: string)
    /** `ValueError`: a list assigned as a column has the wrong length. */
    | LengthMismatch(expected: nat, actual: nat)
    /** `IndexError`/`ValueError`: `mapping_keys` is not two lists of equal length. */
    | MalformedMapping
    /** `UnboundLocalError`: `query` is never assigned for this aggregation. */
    | UnknownAggregation(agg: string)
    /** `ValueError`: three column names assigned to a frame without columns. */
    | EmptyRanking
    /** `ValueError`: `max()` of an empty list of components. */
    | NoComponents

  /** True iff no element occurs twice. */
  predicate Distinct<T(==)>(s: seq<T>)
  {
    forall i, j :: 0 <= i < j < |s| ==> s[i] != s[j]
  }
}
