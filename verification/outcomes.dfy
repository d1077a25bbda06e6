/** Failure-carrying results for the tree operations.

    The Java tree signals internal failures by throwing: a rotation without
    the child it needs, a dereference of the null parent that a deleted root
    leaves behind, and the removal of a BLACK leaf. Each becomes an `Error`.
 */
module Outcomes {

  /** Why an operation threw instead of returning. */
  datatype Error =
    | MissingChild      // rotateLeft/rotateRight on a node without the child to promote
    | NullReference     // a parent link that is null where the code dereferences it
    | UnexpectedColor   // deleteNode asked to remove a BLACK leaf

  datatype Option<+T> = None | Some(value: T)

  datatype Result<+T> = Ok(value: T) | Err(error: Error)
}
