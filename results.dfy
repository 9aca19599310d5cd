/** Option and Result values used for the error paths of the loaders. */
module Results {

  datatype Option<+T> = None | Some(value: T)

  /** The error the word-ladder core can report: the graph file ends before its declared structure does. */
  datatype Error = Malformed

  datatype Result<+T> = Ok(value: T) | Err(error: Error)
}
