/** Small failure-carrying wrappers shared by the model's modules. */
module Wrappers {

  /** A value that may be absent; stands for a C pointer that may be NULL. */
  datatype Option<T> = None | Some(value: T)

  /** The outcome of a step whose C code can trap or invoke undefined behaviour. */
  datatype Result<T, E> = Ok(value: T) | Fault(error: E)
}
