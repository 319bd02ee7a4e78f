/**
 * The remote document store, seen only through the outcome of each call. The store itself is
 * not modelled: every operation that calls it takes the outcome as a parameter, so a proof
 * about the operation covers both a successful and a failed call.
 */
module Gateway {
  datatype Outcome = Success | Failure
}
