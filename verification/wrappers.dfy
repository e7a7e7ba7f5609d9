/** Failure-carrying datatypes shared by every module of the model. */
module Wrappers {

  /** Rust's `Option<T>`. */
  datatype Option<+T> = None | Some(value: T)

  /** Rust's `Result<T, E>`. */
  datatype Result<+T, +E> = Ok(value: T) | Err(error: E)

  /** How a Rust call ends: it returns a value, or it panics and unwinds
      with the given message. */
  datatype Completion<+T> = Returned(value: T) | Panicked(message: string)

  /** Message of `lock().unwrap()` on a poisoned `std::sync::Mutex`. */
  const UnwrapPoisoned: string := "called `Result::unwrap()` on an `Err` value: PoisonError { .. }"

  /** `PoisonError::to_string()`, carried by the `LockError` variants. */
  const PoisonedLock: string := "poisoned lock: another task failed inside"
}
