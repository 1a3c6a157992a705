/** Failure-carrying values for the lookups that raise in the dashboard. */
module Wrappers {

  datatype Option<+T> = None | Some(value: T)

  /** The two Python exceptions the name and label lookups can raise. */
  datatype LookupError =
    | IndexError         // `nameParts[0]` on a name with no tokens
    | KeyError(key: string)  // `ethnicityMap[race]` for a race outside the map

  datatype Result<+T> = Ok(value: T) | Err(error: LookupError)
}
