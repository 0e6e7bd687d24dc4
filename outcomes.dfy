/** The failure values the modelled routines can end in. Python raises an
    exception at the first failing lookup or index; the model returns it. */
module Outcomes {

  datatype Option<T> = None | Some(value: T)

  /** The exceptions the modelled routines can raise. */
  datatype Error =
    | KeyError(key: string)   // a dictionary lookup of a missing key
    | IndexError(index: int)  // a row index outside a numpy matrix
    | NegativeDimensions      // numpy.zeros with a negative extent
    | BroadcastError(source: nat, target: nat)  // a vector that does not fit a matrix row

  datatype Result<T> = Ok(value: T) | Err(error: Error)

  /** No element occurs twice; the keys of a dictionary, or a sorted set. */
  predicate Distinct<T(==)>(s: seq<T>) {
    forall i, j :: 0 <= i < j < |s| ==> s[i] != s[j]
  }
}
