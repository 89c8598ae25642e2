/** Failure-carrying results. The source signals every failure with a panic;
    the model returns the failure instead, tagged with its kind. */
module Wrappers {

  /** The failure kinds of the store and its entities. */
  datatype Error =
    | InvalidEntity   // a flag mask rejected at construction
    | NotFound        // an identity absent from the store
    | IndexFailure    // the spatial index refused an insert or a removal
    | InvalidDomain   // a point the rectangle normal cannot classify

  /** Either the value an operation produces or the kind of its failure. */
  datatype Result<+T> = Success(value: T) | Failure(error: Error)
}
