/** Result types shared by every component of the model. */
module Wrappers {

  datatype Option<+T> = None | Some(value: T)

  /** The error categories the stores attach to a refused or failed operation. */
  datatype Category =
    | PathSafety | Schema | CanonicalForm | IdentityAmbiguity | ResourceLimit
    | StaleRevision | Durability | Synchronization | Conflict | UnsafeState
    | DomainInvariant | Authority

  datatype Result<+T> = Ok(value: T) | Err(error: Category)
}
