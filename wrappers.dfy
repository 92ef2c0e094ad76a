/** Error kinds raised by the graph store, and the values that carry them.
    Every exception the store throws is synchronous and leaves the store
    untouched, so an operation either succeeds or reports one of these. */
module Wrappers {

  /** DuplicateEntity: the node or edge is already present.
      UnknownEntity: a node is not a key of the store.
      InvalidArgument: a required reference is null. */
  datatype Error = DuplicateEntity | UnknownEntity | InvalidArgument

  /** Result of an operation that returns nothing when it succeeds. */
  datatype Outcome = Pass | Fail(error: Error)

  /** Result of an operation that returns a value when it succeeds. */
  datatype Result<+T> = Ok(value: T) | Err(error: Error)

  /** A reference that may be null, for values that are not objects. */
  datatype Option<+T> = None | Some(value: T)
}
