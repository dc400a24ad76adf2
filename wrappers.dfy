/** Option and Result values used in place of Python's None and exceptions. */
module Wrappers {
  datatype Option<+T> = None | Some(value: T)

  datatype Result<+T, +E> = Success(value: T) | Failure(error: E)
}

/** The exceptions of uce_fastas.py that the model keeps, and the query error of
    the SQLite store; one constructor per exception kept. */
module Failures {
  datatype Failure =
    | CompleteMatrixMissingData            // IOError: a null match under a complete matrix
    | UnparsableMatch(value: string)       // AttributeError: a match string the pattern rejects
    | FastaNotFound(name: string, extensions: seq<string>)  // ValueError from find_file
    | UnrecognisedHeader(id: string)       // AttributeError: a contig id the header pattern rejects
    | QueryFailed(column: string)          // the match_map query names a column the store lacks
    | NamesDoNotMatch(organism: string)    // AssertionError: written loci differ from requested loci
}
