/** Option and Result, the failure-carrying values used throughout the model. */
module Wrappers {

  datatype Option<+T> = None | Some(value: T)

  /** The kinds of failure the data-access layer reports. */
  datatype Error =
    | ParseError                 // a literal or default text does not parse as its tag
    | MalformedQuery(msg: string)  // SELECT or FROM missing from a query
    | UnknownTable(name: string)   // the table after FROM is not in the cached schema
    | MissingField(key: string)  // std::map::at on a key the result row lacks
    | EngineError(msg: string)    // the SQL engine rejected a statement
    | Undefined(what: string)     // the source has undefined behaviour on this input

  datatype Result<+T> = Ok(value: T) | Err(error: Error)
}
