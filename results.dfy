/** Failure-carrying results shared by every stage of the pipeline model. */
module Results {

  datatype Option<+T> = None | Some(value: T)

  /** The exceptions the modelled Python code raises, one constructor per kind. */
  datatype Error =
    | IndexOutOfRange                      // IndexError: a row shorter than the column list
    | ColumnsNotFound(labels: seq<string>) // pandas KeyError from DataFrame.drop, listing the absent labels
    | KeyNotFound(name: string)           // KeyError from a join key, or a missing response entry
    | ColumnsOverlap(shared: set<string>)  // pandas ValueError: join columns overlap but no suffix given
    | FilesNotComplete(message: string)    // the staged-file completeness check
    | InvalidDate                          // a date pandas cannot parse as a calendar day
    | OutOfBoundsDatetime                  // a day outside the range pandas timestamps can hold

  datatype Result<+T> = Ok(value: T) | Err(error: Error)
}
