/** Failure signalling shared by the four use cases. */
module Outcomes {

  /** A port lookup: `None` stands for the `null` that `findById` returns for a missing record. */
  datatype Option<T> = None | Some(value: T)

  /** The outcome of a use-case operation: either its value, or the single
      failure kind the use cases raise (`NoExistException`), whatever its cause. */
  datatype Result<T> = Ok(value: T) | NotFound

  /** What an operation returns together with the contents of the store after it. */
  datatype Step<T, K, E> = Step(result: Result<T>, after: map<K, E>)
}
