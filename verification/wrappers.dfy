/** Optional values and success-or-failure results, standing in for Java's
    `Optional` and for the exceptions the services throw. */
module Wrappers {

  datatype Option<+T> = None | Some(value: T)

  /** `Ok` carries what the operation returns (and, for a service call, the
      repository state after it); `Err` carries the exception it throws. A
      failed call has no state component: it leaves every repository as it was. */
  datatype Result<+T, +E> = Ok(value: T) | Err(error: E)
}
